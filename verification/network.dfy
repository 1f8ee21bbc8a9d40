/** The socket helper layer as it runs against the operating system: every
    operation is a method of `Os`, whose fields are the process's `errno`, the
    kernel's remaining replies, the set of open descriptors, the record of
    observable effects, and the resolver's remaining replies with the log of
    the queries it was asked. Each method is proved to perform exactly the run
    its specification function describes. */
module Network {
  import opened SocketErrors
  import opened Address
  import opened Kernel
  import opened Configure
  import opened Establish
  import opened Resolution

  /** What a failed libc call returns. */
  const SOCKET_ERROR := -1

  class Os {
    var errno: int
    var replies: seq<int>
    var open: set<Fd>
    var trace: seq<Effect>
    var gaiReplies: seq<GaiReply>
    var gaiLog: seq<GaiQuery>
    const env: Env
    ghost const initiallyOpen: set<Fd>

    /** The open set is what the recorded effects leave of the initial one. */
    ghost predicate Valid()
      reads this`open, this`trace
    {
      open == OpenAfter(initiallyOpen, trace)
    }

    /** The state after a method that performed `run` and returned `r`. */
    ghost predicate Completes<T>(run: Run<T>, r: Outcome<T>, before: seq<Effect>)
      reads this`replies, this`errno, this`trace
    {
      r == run.outcome && replies == run.rest && errno == run.errno && trace == before + run.effects
    }

    constructor (env: Env, replies: seq<int>, gaiReplies: seq<GaiReply>, open: set<Fd>)
      ensures Valid()
      ensures this.env == env && this.replies == replies && this.gaiReplies == gaiReplies
      ensures this.open == open && trace == [] && gaiLog == [] && errno == 0
    {
      this.env := env;
      this.replies := replies;
      this.gaiReplies := gaiReplies;
      this.open := open;
      this.initiallyOpen := open;
      this.trace := [];
      this.gaiLog := [];
      this.errno := 0;
    }

    // ---- primitives ----

    /** A system call that creates nothing: its result, or -1 with errno set. */
    method Syscall() returns (rc: int)
      modifies this`replies, this`errno
      ensures rc == (if Reply(old(replies)) < 0 then SOCKET_ERROR else Reply(old(replies)))
      ensures replies == Advance(old(replies)) && errno == ErrnoAfter(old(replies), old(errno))
    {
      var reply := Reply(replies);
      replies := Advance(replies);
      if reply < 0 {
        errno := -reply;
        rc := SOCKET_ERROR;
      } else {
        rc := reply;
      }
    }

    /** A system call that creates a descriptor (`socket`, `accept`). */
    method NewDescriptor() returns (fd: Fd)
      requires Valid()
      modifies this`replies, this`errno, this`open, this`trace
      ensures Valid()
      ensures fd == (if Reply(old(replies)) < 0 then INVALID_SOCKET else Reply(old(replies)))
      ensures replies == Advance(old(replies)) && errno == ErrnoAfter(old(replies), old(errno))
      ensures trace == old(trace) + (if fd == INVALID_SOCKET then [] else [Opened(fd)])
    {
      fd := Syscall();
      if fd != INVALID_SOCKET {
        RecordOpened(fd);
      }
    }

    /** Records that a descriptor was created. */
    method RecordOpened(fd: Fd)
      requires Valid()
      modifies this`open, this`trace
      ensures Valid() && trace == old(trace) + [Opened(fd)] && open == old(open) + {fd}
    {
      OpenAfterSnoc(initiallyOpen, trace, Opened(fd));
      open := open + {fd};
      trace := trace + [Opened(fd)];
    }

    /** Records an effect that opens and closes nothing. */
    method Record(e: Effect)
      requires Valid() && !e.Opened? && !e.Closed?
      modifies this`trace
      ensures Valid() && trace == old(trace) + [e]
    {
      OpenAfterSnoc(initiallyOpen, trace, e);
      trace := trace + [e];
    }

    /** `close()`: fails with EBADF on a descriptor that is not open. */
    method Close(fd: Fd) returns (rc: int)
      requires Valid()
      modifies this`open, this`trace, this`errno
      ensures Valid()
      ensures trace == old(trace) + [Closed(fd)] && open == old(open) - {fd}
      ensures rc == (if fd in old(open) then 0 else SOCKET_ERROR)
      ensures errno == (if fd in old(open) then old(errno) else EBADF)
    {
      OpenAfterSnoc(initiallyOpen, trace, Closed(fd));
      if fd in open {
        rc := 0;
      } else {
        rc := SOCKET_ERROR;
        errno := EBADF;
      }
      open := open - {fd};
      trace := trace + [Closed(fd)];
    }

    /** `closeSocketNoThrow`: close, ignoring the result, and keep errno as it was. */
    method CloseSocketNoThrow(fd: Fd)
      requires Valid()
      modifies this`open, this`trace, this`errno
      ensures Valid()
      ensures trace == old(trace) + [Closed(fd)] && open == old(open) - {fd}
      ensures errno == old(errno)
    {
      var error := errno;
      var _ := Close(fd);
      errno := error;
    }

    /** `closeSocket`: close; a failure raises with the close's error, a
        success keeps errno as it was. */
    method CloseSocket(fd: Fd) returns (r: Outcome<()>)
      requires Valid()
      modifies this`open, this`trace, this`errno
      ensures Valid()
      ensures trace == old(trace) + [Closed(fd)] && open == old(open) - {fd}
      ensures r.Done? <==> fd in old(open)
      ensures r.Raised? ==> r.error == SocketException(EBADF) && errno == EBADF
      ensures r.Done? ==> errno == old(errno)
    {
      var error := errno;
      var rc := Close(fd);
      if rc == SOCKET_ERROR {
        r := Raised(SocketException(errno));
        return;
      }
      errno := error;
      r := Done(());
    }

    // ---- socket options ----

    /** `setsockopt`, closing and raising on failure. */
    method SetOption(fd: Fd, opt: SockOpt, value: int) returns (r: Outcome<()>)
      requires Valid()
      modifies this`replies, this`errno, this`open, this`trace
      ensures Valid()
      ensures Completes(SetOptionSpec(fd, opt, value, old(replies), old(errno)), r, old(trace))
    {
      var rc := Syscall();
      if rc == SOCKET_ERROR {
        CloseSocketNoThrow(fd);
        r := Raised(SocketException(errno));
      } else {
        Record(OptionSet(fd, opt, value));
        r := Done(());
      }
    }

    method SetTcpNoDelay(fd: Fd) returns (r: Outcome<()>)
      requires Valid()
      modifies this`replies, this`errno, this`open, this`trace
      ensures Valid()
      ensures Completes(SetOptionSpec(fd, TcpNoDelay, 1, old(replies), old(errno)), r, old(trace))
    {
      r := SetOption(fd, TcpNoDelay, 1);
    }

    method SetKeepAlive(fd: Fd) returns (r: Outcome<()>)
      requires Valid()
      modifies this`replies, this`errno, this`open, this`trace
      ensures Valid()
      ensures Completes(SetOptionSpec(fd, KeepAlive, 1, old(replies), old(errno)), r, old(trace))
    {
      r := SetOption(fd, KeepAlive, 1);
    }

    method SetSendBufferSize(fd: Fd, sz: int) returns (r: Outcome<()>)
      requires Valid()
      modifies this`replies, this`errno, this`open, this`trace
      ensures Valid()
      ensures Completes(SetOptionSpec(fd, SendBuffer, sz, old(replies), old(errno)), r, old(trace))
    {
      r := SetOption(fd, SendBuffer, sz);
    }

    method SetRecvBufferSize(fd: Fd, sz: int) returns (r: Outcome<()>)
      requires Valid()
      modifies this`replies, this`errno, this`open, this`trace
      ensures Valid()
      ensures Completes(SetOptionSpec(fd, RecvBuffer, sz, old(replies), old(errno)), r, old(trace))
    {
      r := SetOption(fd, RecvBuffer, sz);
    }

    method SetReuseAddress(fd: Fd, reuse: bool) returns (r: Outcome<()>)
      requires Valid()
      modifies this`replies, this`errno, this`open, this`trace
      ensures Valid()
      ensures Completes(SetOptionSpec(fd, ReuseAddress, if reuse then 1 else 0, old(replies), old(errno)), r, old(trace))
    {
      r := SetOption(fd, ReuseAddress, if reuse then 1 else 0);
    }

    /** The multicast time-to-live, as IP_MULTICAST_TTL or IPV6_MULTICAST_HOPS. */
    method SetMcastTtl(fd: Fd, ttl: int, ipv4: bool) returns (r: Outcome<()>)
      requires Valid()
      modifies this`replies, this`errno, this`open, this`trace
      ensures Valid()
      ensures Completes(SetOptionSpec(fd, if ipv4 then MulticastTtl else MulticastHops, ttl, old(replies), old(errno)),
                        r, old(trace))
    {
      r := SetOption(fd, if ipv4 then MulticastTtl else MulticastHops, ttl);
    }

    /** `getsockopt` of a buffer size, closing and raising on failure. */
    method GetBufferSize(fd: Fd) returns (r: Outcome<int>)
      requires Valid()
      modifies this`replies, this`errno, this`open, this`trace
      ensures Valid()
      ensures Completes(GetOptionSpec(fd, old(replies), old(errno)), r, old(trace))
    {
      var sz := Syscall();
      if sz == SOCKET_ERROR {
        CloseSocketNoThrow(fd);
        r := Raised(SocketException(errno));
      } else {
        r := Done(sz);
      }
    }

    method GetSendBufferSize(fd: Fd) returns (r: Outcome<int>)
      requires Valid()
      modifies this`replies, this`errno, this`open, this`trace
      ensures Valid()
      ensures Completes(GetOptionSpec(fd, old(replies), old(errno)), r, old(trace))
    {
      r := GetBufferSize(fd);
    }

    method GetRecvBufferSize(fd: Fd) returns (r: Outcome<int>)
      requires Valid()
      modifies this`replies, this`errno, this`open, this`trace
      ensures Valid()
      ensures Completes(GetOptionSpec(fd, old(replies), old(errno)), r, old(trace))
    {
      r := GetBufferSize(fd);
    }

    // ---- creation and mode ----

    /** `createSocket`: a datagram or stream socket of the family; a stream
        socket gets no-delay and keep-alive. */
    method CreateSocket(udp: bool, family: int) returns (r: Outcome<Fd>)
      requires Valid()
      modifies this`replies, this`errno, this`open, this`trace
      ensures Valid()
      ensures Completes(CreateSocketSpec(udp, old(replies), old(errno)), r, old(trace))
    {
      ghost var s0, e0, t0 := replies, errno, trace;
      var fd := NewDescriptor();
      if fd == INVALID_SOCKET {
        r := Raised(SocketException(errno));
        return;
      }
      if !udp {
        assert CreateSocketSpec(udp, s0, e0) == After([Opened(fd)], WithValue(TcpOptionsSpec(fd, replies, errno), fd));
        ghost var tcp := TcpOptionsSpec(fd, replies, errno);
        var o := SetTcpOptions(fd);
        AppendAssoc(t0, [Opened(fd)], tcp.effects);
        if o.Raised? {
          r := Raised(o.error);
          return;
        }
      }
      r := Done(fd);
    }

    /** `setBlock`: read the flags, switch O_NONBLOCK, write them back. */
    method SetBlock(fd: Fd, block: bool) returns (r: Outcome<()>)
      requires Valid()
      modifies this`replies, this`errno, this`open, this`trace
      ensures Valid()
      ensures Completes(SetBlockSpec(fd, block, old(replies), old(errno)), r, old(trace))
    {
      var flags := Syscall();
      flags := BlockFlags(flags, block);
      var rc := Syscall();
      if rc == SOCKET_ERROR {
        CloseSocketNoThrow(fd);
        r := Raised(SocketException(errno));
      } else {
        Record(FlagsSet(fd, flags));
        r := Done(());
      }
    }

    /** POSIX `createPipe`: both ends in blocking mode. */
    method CreatePipe() returns (r: Outcome<(Fd, Fd)>)
      requires Valid()
      modifies this`replies, this`errno, this`open, this`trace
      ensures Valid()
      ensures Completes(CreatePipeSpec(old(replies), old(errno)), r, old(trace))
    {
      ghost var s0, e0, t0 := replies, errno, trace;
      var rc := Syscall();
      if rc == SOCKET_ERROR {
        r := Raised(SyscallException(errno));
        return;
      }
      assert Reply(s0) == rc && replies == Advance(s0) && errno == e0;
      ghost var pb := PipeBlockingSpec(rc, rc + 1, replies, errno);
      assert CreatePipeSpec(s0, e0) == After([Opened(rc), Opened(rc + 1)], pb);
      RecordOpened(rc);
      RecordOpened(rc + 1);
      ghost var t1 := trace;
      assert t1 == t0 + [Opened(rc), Opened(rc + 1)];
      r := BlockPipeEnds(rc, rc + 1);
      AppendAssoc(t0, [Opened(rc), Opened(rc + 1)], pb.effects);
    }

    /** The second half of `createPipe`: each end to blocking mode; when one
        end fails (and is closed) the other is closed too. */
    method BlockPipeEnds(rd: Fd, wr: Fd) returns (r: Outcome<(Fd, Fd)>)
      requires Valid()
      modifies this`replies, this`errno, this`open, this`trace
      ensures Valid()
      ensures Completes(PipeBlockingSpec(rd, wr, old(replies), old(errno)), r, old(trace))
    {
      ghost var t0 := trace;
      ghost var sb0 := SetBlockSpec(rd, true, replies, errno);
      var b0 := SetBlock(rd, true);
      if b0.Raised? {
        CloseSocketNoThrow(wr);
        AppendAssoc(t0, sb0.effects, [Closed(wr)]);
        r := Raised(b0.error);
        return;
      }
      ghost var sb1 := SetBlockSpec(wr, true, replies, errno);
      var b1 := SetBlock(wr, true);
      AppendAssoc(t0, sb0.effects, sb1.effects);
      if b1.Raised? {
        CloseSocketNoThrow(rd);
        AppendAssoc(t0 + sb0.effects, sb1.effects, [Closed(rd)]);
        AppendAssoc(t0, sb0.effects + sb1.effects, [Closed(rd)]);
        r := Raised(b1.error);
        return;
      }
      r := Done((rd, wr));
    }

    /** One half of `setTcpBufSize`: set the size when it is positive, then
        check what the kernel granted. */
    method BufSizeStep(fd: Fd, requested: int, opt: SockOpt) returns (r: Outcome<()>)
      requires Valid() && (opt == RecvBuffer || opt == SendBuffer)
      modifies this`replies, this`errno, this`open, this`trace
      ensures Valid()
      ensures Completes(BufSizeStepSpec(fd, requested, opt, old(replies), old(errno)), r, old(trace))
    {
      if requested > 0 {
        ghost var t0 := trace;
        ghost var applied := SetOptionSpec(fd, opt, requested, replies, errno);
        r := SetOption(fd, opt, requested);
        if r.Raised? {
          return;
        }
        ghost var check := GrantCheckSpec(fd, requested, opt, replies, errno);
        r := CheckGranted(fd, requested, opt);
        AppendAssoc(t0, applied.effects, check.effects);
      } else {
        r := Done(());
      }
    }

    /** Read the buffer size back and warn when the kernel granted less. */
    method CheckGranted(fd: Fd, requested: int, opt: SockOpt) returns (r: Outcome<()>)
      requires Valid() && (opt == RecvBuffer || opt == SendBuffer)
      modifies this`replies, this`errno, this`open, this`trace
      ensures Valid()
      ensures Completes(GrantCheckSpec(fd, requested, opt, old(replies), old(errno)), r, old(trace))
    {
      var size := GetBufferSize(fd);
      if size.Raised? {
        r := Raised(size.error);
        return;
      }
      if size.value < requested {
        Record(Warned(BufSizeAdjusted(opt, requested, size.value)));
      }
      r := Done(());
    }

    /** `setTcpBufSize`: the receive buffer, then the send buffer. */
    method SetTcpBufSize(fd: Fd, props: map<string, int>) returns (r: Outcome<()>)
      requires Valid()
      modifies this`replies, this`errno, this`open, this`trace
      ensures Valid()
      ensures Completes(TcpBufSizeSpec(fd, props, old(replies), old(errno)), r, old(trace))
    {
      ghost var s0, e0, t0 := replies, errno, trace;
      var sizeRequested := PropertyAsIntWithDefault(props, "Ice.TCP.RcvSize", DefaultBufSize);
      ghost var rcv := BufSizeStepSpec(fd, sizeRequested, RecvBuffer, s0, e0);
      r := BufSizeStep(fd, sizeRequested, RecvBuffer);
      if r.Raised? {
        assert TcpBufSizeSpec(fd, props, s0, e0) == rcv;
        return;
      }
      sizeRequested := PropertyAsIntWithDefault(props, "Ice.TCP.SndSize", DefaultBufSize);
      ghost var snd := BufSizeStepSpec(fd, sizeRequested, SendBuffer, rcv.rest, rcv.errno);
      assert TcpBufSizeSpec(fd, props, s0, e0) == After(rcv.effects, snd);
      r := BufSizeStep(fd, sizeRequested, SendBuffer);
      AppendAssoc(t0, rcv.effects, snd.effects);
    }

    // ---- addresses of a descriptor ----

    /** `fdToLocalAddress`: `getsockname`, or close and raise. */
    method FdToLocalAddress(fd: Fd) returns (r: Outcome<SockAddr>)
      requires Valid()
      modifies this`replies, this`errno, this`open, this`trace
      ensures Valid()
      ensures Completes(LocalAddressSpec(env, fd, old(replies), old(errno)), r, old(trace))
    {
      var rc := Syscall();
      if rc == SOCKET_ERROR {
        CloseSocketNoThrow(fd);
        r := Raised(SocketException(errno));
        return;
      }
      r := Done(env.localOf(fd));
    }

    /** `fdToRemoteAddress`: true with the peer `env.peerOf(fd)`, false when
        the descriptor is not connected; any other failure closes and raises. */
    method FdToRemoteAddress(fd: Fd) returns (r: Outcome<bool>)
      requires Valid()
      modifies this`replies, this`errno, this`open, this`trace
      ensures Valid()
      ensures Completes(RemoteAddressSpec(env, fd, old(replies), old(errno)), r, old(trace))
    {
      var rc := Syscall();
      if rc == SOCKET_ERROR {
        if NotConnected(errno) {
          r := Done(false);
          return;
        }
        CloseSocketNoThrow(fd);
        r := Raised(SocketException(errno));
        return;
      }
      r := Done(true);
    }

    /** `fdToString`: "<closed>", or the local address and the peer's. */
    method FdToString(fd: Fd) returns (r: Outcome<string>)
      requires Valid()
      modifies this`replies, this`errno, this`open, this`trace
      ensures Valid()
      ensures Completes(FdToStringSpec(env, fd, old(replies), old(errno)), r, old(trace))
    {
      if fd == INVALID_SOCKET {
        r := Done("<closed>");
        return;
      }
      var localAddr := FdToLocalAddress(fd);
      if localAddr.Raised? {
        r := Raised(localAddr.error);
        return;
      }
      var peerConnected := FdToRemoteAddress(fd);
      if peerConnected.Raised? {
        r := Raised(peerConnected.error);
        return;
      }
      r := Done(AddressesToString(env.hostOf, localAddr.value, env.peerOf(fd), peerConnected.value));
    }

    // ---- bind, listen, connect, accept ----

    /** `doBind`: the address the descriptor is bound to, as `getsockname`
        reads it back (unchanged when that call fails). */
    method DoBind(fd: Fd, addr: SockAddr) returns (r: Outcome<SockAddr>)
      requires Valid()
      modifies this`replies, this`errno, this`open, this`trace
      ensures Valid()
      ensures Completes(BindSpec(env, fd, addr, old(replies), old(errno)), r, old(trace))
    {
      var rc := Syscall();
      if rc == SOCKET_ERROR {
        CloseSocketNoThrow(fd);
        r := Raised(SocketException(errno));
        return;
      }
      rc := Syscall();
      r := Done(if rc == SOCKET_ERROR then addr else env.localOf(fd));
    }

    /** `doListen`: `listen`, repeated while interrupted. */
    method DoListen(fd: Fd, backlog: int) returns (r: Outcome<()>)
      requires Valid()
      modifies this`replies, this`errno, this`open, this`trace
      ensures Valid()
      ensures Completes(ListenSpec(fd, backlog, old(replies), old(errno)), r, old(trace))
    {
      ghost var s, e := replies, errno;
      var rc := Syscall();
      while rc == SOCKET_ERROR && Interrupted(errno)
        invariant Valid() && trace == old(trace)
        invariant ListenSpec(fd, backlog, s, e) == ListenSpec(fd, backlog, old(replies), old(errno))
        invariant replies == Advance(s) && errno == ErrnoAfter(s, e)
        invariant rc == (if Reply(s) < 0 then SOCKET_ERROR else Reply(s))
        decreases |s|
      {
        s, e := replies, errno;
        rc := Syscall();
      }
      if rc == SOCKET_ERROR {
        CloseSocketNoThrow(fd);
        r := Raised(SocketException(errno));
        return;
      }
      r := Done(());
    }

    /** `doConnect`: true when connected, false when the connection is still in
        progress (timeout 0). It finishes a pending connection with the
        corrected `DoFinishConnect`, so it closes the descriptor at most once. */
    method DoConnect(fd: Fd, addr: SockAddr, timeout: int) returns (r: Outcome<bool>)
      requires Valid()
      modifies this`replies, this`errno, this`open, this`trace
      ensures Valid()
      ensures Completes(ConnectWith(env, fd, addr, timeout, old(replies), old(errno), true), r, old(trace))
    {
      ghost var spec := ConnectWith(env, fd, addr, timeout, old(replies), old(errno), true);
      ghost var s, e := replies, errno;
      var rc := Syscall();
      while rc == SOCKET_ERROR && Interrupted(errno)
        invariant Valid() && trace == old(trace)
        invariant ConnectWith(env, fd, addr, timeout, s, e, true) == spec
        invariant replies == Advance(s) && errno == ErrnoAfter(s, e)
        invariant rc == (if Reply(s) < 0 then SOCKET_ERROR else Reply(s))
        decreases |s|
      {
        s, e := replies, errno;
        rc := Syscall();
      }
      if rc == SOCKET_ERROR {
        if ConnectInProgress(errno) {
          if timeout == 0 {
            r := Done(false);
            return;
          }
          var f := DoFinishConnect(fd, timeout);
          if f.Raised? {
            CloseSocketNoThrow(fd);
            r := Raised(f.error);
            return;
          }
          r := Done(true);
          return;
        }
        CloseSocketNoThrow(fd);
        r := Raised(ClassifyConnect(errno));
        return;
      }
      if env.linux {
        var localAddr := FdToLocalAddress(fd);
        if localAddr.Raised? {
          r := Raised(localAddr.error);
          return;
        }
        if Compare(addr, localAddr.value) == 0 {
          r := Raised(ConnectionRefusedException(0));
          return;
        }
      }
      r := Done(true);
    }

    /** `doFinishConnect` as its opening note describes it: wait for the
        connection unless the timeout is 0, read its pending error and, on
        Linux, refuse a connection to itself; it never closes the descriptor
        (its address queries do not close). */
    method DoFinishConnect(fd: Fd, timeout: int) returns (r: Outcome<()>)
      requires Valid()
      modifies this`replies, this`errno
      ensures Valid()
      ensures Completes(FinishConnectIntendedSpec(env, fd, timeout, old(replies), old(errno)), r, old(trace))
    {
      ghost var s0, e0 := replies, errno;
      if timeout != 0 {
        var ready := Poll(ConnectTimeoutException);
        if ready.Raised? {
          r := Raised(ready.error);
          return;
        }
      }
      var val := Syscall();
      if val == SOCKET_ERROR {
        r := Raised(SocketException(errno));
        return;
      }
      if val > 0 {
        errno := val;
        r := Raised(ClassifyConnect(errno));
        return;
      }
      if env.linux {
        var rc := Syscall();
        if rc == SOCKET_ERROR {
          r := Raised(SocketException(errno));
          return;
        }
        var localAddr := env.localOf(fd);
        rc := Syscall();
        var peerConnected := true;
        if rc == SOCKET_ERROR {
          if !NotConnected(errno) {
            r := Raised(SocketException(errno));
            return;
          }
          peerConnected := false;
        }
        if peerConnected && Compare(env.peerOf(fd), localAddr) == 0 {
          r := Raised(ConnectionRefusedException(0));
          return;
        }
      }
      r := Done(());
    }

    /** `poll` on the descriptor until it is ready, repeated while
        interrupted; 0 means the timeout expired and raises `expired`. */
    method Poll(expired: NetError) returns (r: Outcome<()>)
      modifies this`replies, this`errno
      ensures Completes(PollSpec(expired, old(replies), old(errno)), r, trace)
    {
      ghost var s, e := replies, errno;
      var ret := Syscall();
      while ret == SOCKET_ERROR && Interrupted(errno)
        invariant PollSpec(expired, s, e) == PollSpec(expired, old(replies), old(errno))
        invariant replies == Advance(s) && errno == ErrnoAfter(s, e)
        invariant ret == (if Reply(s) < 0 then SOCKET_ERROR else Reply(s))
        decreases |s|
      {
        s, e := replies, errno;
        ret := Syscall();
      }
      if ret == 0 {
        r := Raised(expired);
      } else if ret == SOCKET_ERROR {
        r := Raised(SocketException(errno));
      } else {
        r := Done(());
      }
    }

    /** `doAccept`: the accepted descriptor, with no-delay and keep-alive set. */
    method DoAccept(fd: Fd, timeout: int) returns (r: Outcome<Fd>)
      requires Valid()
      modifies this`replies, this`errno, this`open, this`trace
      ensures Valid()
      ensures Completes(AcceptSpec(fd, timeout, old(replies), old(errno)), r, old(trace))
    {
      ghost var t0 := trace;
      r := AwaitConnection(fd, timeout);
      if r.Raised? {
        return;
      }
      RecordOpened(r.value);
      ghost var tcp := TcpOptionsSpec(r.value, replies, errno);
      var o := SetTcpOptions(r.value);
      AppendAssoc(t0, [Opened(r.value)], tcp.effects);
      if o.Raised? {
        r := Raised(o.error);
      }
    }

    /** The retry loop of `doAccept`: `accept()` again when interrupted or
        when the connection went away, wait for readability when it would
        block. It ends with an exception, or with the accepted descriptor
        from which the rest of the run is setting the TCP options. */
    method AwaitConnection(fd: Fd, timeout: int) returns (r: Outcome<Fd>)
      modifies this`replies, this`errno
      ensures r.Raised? ==> AcceptSpec(fd, timeout, old(replies), old(errno)) == Run(r, replies, errno, [])
      ensures r.Done? ==> r.value != INVALID_SOCKET
      ensures r.Done? ==> AcceptSpec(fd, timeout, old(replies), old(errno))
                          == After([Opened(r.value)], WithValue(TcpOptionsSpec(r.value, replies, errno), r.value))
    {
      ghost var spec := AcceptSpec(fd, timeout, replies, errno);
      ghost var s, e := replies, errno;
      var ret := Syscall();
      while ret == INVALID_SOCKET
        invariant AcceptSpec(fd, timeout, s, e) == spec
        invariant replies == Advance(s) && errno == ErrnoAfter(s, e)
        invariant ret == (if Reply(s) < 0 then INVALID_SOCKET else Reply(s))
        decreases |s|
      {
        AcceptFailure(fd, timeout, s, e);
        if AcceptInterrupted(errno) {
          s, e := replies, errno;
          ret := Syscall();
          continue;
        }
        if !WouldBlock(errno) {
          r := Raised(SocketException(errno));
          return;
        }
        var ready := Poll(TimeoutException);
        if ready.Raised? {
          r := Raised(ready.error);
          return;
        }
        s, e := replies, errno;
        ret := Syscall();
      }
      r := Done(ret);
    }

    /** `setTcpNoDelay` then `setKeepAlive`, as `createSocket` and `doAccept`
        apply them to a stream socket. */
    method SetTcpOptions(fd: Fd) returns (r: Outcome<()>)
      requires Valid()
      modifies this`replies, this`errno, this`open, this`trace
      ensures Valid()
      ensures Completes(TcpOptionsSpec(fd, old(replies), old(errno)), r, old(trace))
    {
      ghost var t0 := trace;
      ghost var nd := SetOptionSpec(fd, TcpNoDelay, 1, replies, errno);
      r := SetTcpNoDelay(fd);
      if r.Raised? {
        return;
      }
      ghost var ka := SetOptionSpec(fd, KeepAlive, 1, nd.rest, nd.errno);
      r := SetKeepAlive(fd);
      AppendAssoc(t0, nd.effects, ka.effects);
    }

    // ---- name resolution ----

    /** `getaddrinfo`: the next resolver reply; the query is logged. */
    method GetAddrInfo(q: GaiQuery) returns (g: GaiReply)
      modifies this`gaiReplies, this`gaiLog
      ensures g == NextGai(old(gaiReplies)) && gaiReplies == AdvanceGai(old(gaiReplies))
      ensures gaiLog == old(gaiLog) + [q]
    {
      g := NextGai(gaiReplies);
      gaiReplies := AdvanceGai(gaiReplies);
      gaiLog := gaiLog + [q];
    }

    /** The lookup loop shared by `getAddresses` and `getAddressImpl`: ask
        again while the answer is EAI_AGAIN without a result, at most
        `LOOKUP_RETRIES` more times. */
    method LookupLoop(q: GaiQuery) returns (g: GaiReply)
      modifies this`gaiReplies, this`gaiLog
      ensures var l := LookupFrom(old(gaiReplies), LOOKUP_RETRIES);
        g == l.reply && gaiReplies == l.rest && gaiLog == old(gaiLog) + Repeat(q, l.calls)
    {
      ghost var l0 := LookupFrom(gaiReplies, LOOKUP_RETRIES);
      ghost var prev := gaiReplies;
      ghost var calls: nat := 1;
      var retry := LOOKUP_RETRIES;
      g := GetAddrInfo(q);
      while g.addrs == [] && g.code == EAI_AGAIN && retry - 1 >= 0
        invariant retry >= 0
        invariant g == NextGai(prev) && gaiReplies == AdvanceGai(prev)
        invariant gaiLog == old(gaiLog) + Repeat(q, calls)
        invariant var l := LookupFrom(prev, retry);
          l0.reply == l.reply && l0.rest == l.rest && l0.calls == l.calls + calls - 1
        decreases retry
      {
        retry := retry - 1;
        prev := gaiReplies;
        calls := calls + 1;
        g := GetAddrInfo(q);
      }
    }

    /** `getAddresses`: the resolved addresses with the port applied, each
        appended unless an equal one is already in the result. */
    method GetAddresses(host: string, port: int, protocol: ProtocolSupport, blocking: bool)
      returns (r: Outcome<seq<SockAddr>>)
      modifies this`gaiReplies, this`gaiLog
      ensures var res := AddressesSpec(host, port, protocol, blocking, old(gaiReplies));
        && r == res.outcome && gaiReplies == res.rest
        && gaiLog == old(gaiLog) + Repeat(QueryFor(host, AddressesHints(protocol, blocking)), res.calls)
    {
      var g := LookupLoop(QueryFor(host, AddressesHints(protocol, blocking)));
      if !blocking && g.code == EAI_NONAME {
        r := Done([]);
        return;
      } else if g.code != 0 {
        r := Raised(DnsException(g.code, host));
        return;
      }
      var result := AddUnique(g.addrs, port);
      if result == [] {
        r := Raised(DnsException(0, host));
        return;
      }
      r := Done(result);
    }

    /** The loop of `getAddresses` over the resolver's results: each address
        with the port applied is appended unless an equal one is already in
        the result. */
    static method AddUnique(addrs: seq<SockAddr>, port: int) returns (result: seq<SockAddr>)
      ensures result == Dedup(ApplyPort(addrs, port))
    {
      result := [];
      var i := 0;
      while i < |addrs|
        invariant 0 <= i <= |addrs|
        invariant result == Dedup(ApplyPort(addrs[..i], port))
      {
        var addr := WithPort(addrs[i], port);
        var found := false;
        var j := 0;
        while j < |result|
          invariant 0 <= j <= |result|
          invariant forall k :: 0 <= k < j ==> Compare(result[k], addr) != 0
        {
          if Compare(result[j], addr) == 0 {
            found := true;
            break;
          }
          j := j + 1;
        }
        assert found <==> Contains(result, addr);
        DedupStep(addrs, i, port);
        if !found {
          result := result + [addr];
        }
        i := i + 1;
      }
      assert addrs[..i] == addrs;
    }

    /** `getAddressImpl`: the first resolved address with the port applied. */
    method GetAddressImpl(host: string, port: int, protocol: ProtocolSupport, server: bool)
      returns (r: Outcome<SockAddr>)
      modifies this`gaiReplies, this`gaiLog
      ensures var res := AddressImplSpec(host, port, protocol, server, old(gaiReplies));
        && r == res.outcome && gaiReplies == res.rest
        && gaiLog == old(gaiLog) + Repeat(QueryFor(host, AddressImplHints(protocol, server)), res.calls)
    {
      var g := LookupLoop(QueryFor(host, AddressImplHints(protocol, server)));
      if g.code != 0 {
        r := Raised(DnsException(g.code, host));
        return;
      }
      if g.addrs == [] {
        r := Raised(DnsException(0, host));
        return;
      }
      r := Done(WithPort(g.addrs[0], port));
    }

    /** `getAddress`: a client address. */
    method GetAddress(host: string, port: int, protocol: ProtocolSupport) returns (r: Outcome<SockAddr>)
      modifies this`gaiReplies, this`gaiLog
      ensures var res := AddressImplSpec(host, port, protocol, false, old(gaiReplies));
        && r == res.outcome && gaiReplies == res.rest
        && gaiLog == old(gaiLog) + Repeat(QueryFor(host, AddressImplHints(protocol, false)), res.calls)
    {
      r := GetAddressImpl(host, port, protocol, false);
    }

    /** `getAddressForServer`: a passive lookup, so an empty host is the wildcard. */
    method GetAddressForServer(host: string, port: int, protocol: ProtocolSupport) returns (r: Outcome<SockAddr>)
      modifies this`gaiReplies, this`gaiLog
      ensures var res := AddressImplSpec(host, port, protocol, true, old(gaiReplies));
        && r == res.outcome && gaiReplies == res.rest
        && gaiLog == old(gaiLog) + Repeat(QueryFor(host, AddressImplHints(protocol, true)), res.calls)
    {
      r := GetAddressImpl(host, port, protocol, true);
    }

    /** `isWildcard`: whether the host resolves to the "any" address; a DNS
        failure answers no. */
    method IsWildcard(host: string, protocol: ProtocolSupport) returns (b: bool)
      modifies this`gaiReplies, this`gaiLog
      ensures var res := IsWildcardSpec(host, protocol, old(gaiReplies));
        && res.outcome == Done(b) && gaiReplies == res.rest
        && gaiLog == old(gaiLog) + Repeat(QueryFor(host, AddressImplHints(protocol, false)), res.calls)
    {
      ghost var res := AddressImplSpec(host, 0, protocol, false, gaiReplies);
      assert IsWildcardSpec(host, protocol, gaiReplies) == Resolved(Done(res.outcome.Done? && IsAnyAddress(res.outcome.value)), res.rest, res.calls);
      var addr := GetAddressImpl(host, 0, protocol, false);
      b := false;
      if addr.Done? {
        if addr.value.V4? {
          b := addr.value.addr == 0;
        } else {
          b := IsUnspecified6(addr.value.addr6);
        }
      }
      assert b == (res.outcome.Done? && IsAnyAddress(res.outcome.value));
    }

    /** `getLocalAddresses` over `getifaddrs`: the addresses of the
        non-loopback interfaces of an admitted family, "any" excluded. */
    method GetLocalAddresses(protocol: ProtocolSupport) returns (r: Outcome<seq<SockAddr>>)
      modifies this`replies, this`errno
      ensures Completes(LocalAddressesSpec(env, protocol, old(replies), old(errno)), r, trace)
    {
      var rc := Syscall();
      if rc == SOCKET_ERROR {
        r := Raised(SocketException(errno));
        return;
      }
      var ifap := env.interfaces;
      var result: seq<SockAddr> := [];
      var i := 0;
      while i < |ifap|
        invariant 0 <= i <= |ifap|
        invariant result == LocalFilter(ifap[..i], protocol)
      {
        var curr := ifap[i];
        assert ifap[..i + 1][..i] == ifap[..i];
        if curr.ifaAddr != NoAddress && !curr.loopback {
          if curr.ifaAddr.Ip? && curr.ifaAddr.addr.V4? && protocol != EnableIPv6 {
            if curr.ifaAddr.addr.addr != 0 {
              result := result + [curr.ifaAddr.addr];
            }
          } else if curr.ifaAddr.Ip? && curr.ifaAddr.addr.V6? && protocol != EnableIPv4 {
            if !IsUnspecified6(curr.ifaAddr.addr.addr6) {
              result := result + [curr.ifaAddr.addr];
            }
          }
        }
        i := i + 1;
      }
      assert ifap[..i] == ifap;
      r := Done(result);
    }

    /** `getHostsForEndpointExpand`: for an empty or wildcard host, the
        published local hosts or the loopback fallback; otherwise nothing. */
    method GetHostsForEndpointExpand(host: string, protocol: ProtocolSupport) returns (r: Outcome<seq<string>>)
      modifies this`replies, this`errno, this`gaiReplies, this`gaiLog
      ensures var (run, wild) := ExpandSpec(env, host, protocol, old(replies), old(errno), old(gaiReplies));
        && Completes(run, r, trace)
        && gaiReplies == wild.rest
        && gaiLog == old(gaiLog) + Repeat(QueryFor(host, AddressImplHints(protocol, false)), wild.calls)
    {
      ghost var wild := if host == [] then Resolved(Done(true), gaiReplies, 0)
                        else IsWildcardSpec(host, protocol, gaiReplies);
      ghost var s0, e0 := replies, errno;
      var expand := true;
      if host != [] {
        expand := IsWildcard(host, protocol);
      } else {
        assert gaiLog == old(gaiLog) + Repeat(QueryFor(host, AddressImplHints(protocol, false)), 0);
      }
      if !expand {
        r := Done([]);
        return;
      }
      ghost var l := LocalAddressesSpec(env, protocol, s0, e0);
      var addrs := GetLocalAddresses(protocol);
      if addrs.Raised? {
        r := Raised(addrs.error);
        return;
      }
      var hosts := PublishHosts(env.hostOf, addrs.value, protocol);
      r := Done(hosts);
    }

    /** The loop of `getHostsForEndpointExpand` over the local addresses,
        link-local IPv6 addresses skipped, then the loopback fallback. */
    static method PublishHosts(hostOf: SockAddr -> string, addrs: seq<SockAddr>, protocol: ProtocolSupport)
      returns (hosts: seq<string>)
      ensures hosts == ExpandedHosts(hostOf, addrs, protocol)
    {
      hosts := [];
      var i := 0;
      while i < |addrs|
        invariant 0 <= i <= |addrs|
        invariant hosts == Published(hostOf, addrs[..i])
      {
        var p := addrs[i];
        assert addrs[..i + 1][..i] == addrs[..i];
        if !p.V6? || !IsLinkLocal6(p.addr6) {
          hosts := hosts + [hostOf(p)];
        }
        i := i + 1;
      }
      assert addrs[..i] == addrs;
      if hosts == [] {
        if protocol != EnableIPv6 {
          hosts := hosts + ["127.0.0.1"];
        }
        if protocol != EnableIPv4 {
          hosts := hosts + ["0:0:0:0:0:0:0:1"];
        }
      }
    }
  }
}

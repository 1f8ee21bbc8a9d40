/** Socket creation and configuration: the option setters and getters, which
    close the descriptor before raising; socket and pipe creation; the
    blocking-mode switch; and the buffer-size policy. Each operation is a
    function from a reply script to a run; the methods of `Network.Os` are
    proved to perform exactly these runs. */
module Configure {
  import opened SocketErrors
  import opened Address
  import opened Decimal
  import opened Kernel

  /** `setsockopt`, then on failure `closeSocketNoThrow` and a SocketException
      with the errno captured before the close. */
  function SetOptionSpec(fd: Fd, opt: SockOpt, value: int, s: seq<int>, errno: int): Run<()>
  {
    var rc := Reply(s);
    if rc < 0 then Run(Raised(SocketException(-rc)), Advance(s), -rc, [Closed(fd)])
    else Run(Done(()), Advance(s), errno, [OptionSet(fd, opt, value)])
  }

  /** `getsockopt` of a buffer size: the size the kernel reports, or close and raise. */
  function GetOptionSpec(fd: Fd, s: seq<int>, errno: int): Run<int>
  {
    var rc := Reply(s);
    if rc < 0 then Run(Raised(SocketException(-rc)), Advance(s), -rc, [Closed(fd)])
    else Run(Done(rc), Advance(s), errno, [])
  }

  /** Every option setter keeps the shape "set, or close and raise the captured code". */
  lemma SetOptionCloseOnFailure(fd: Fd, opt: SockOpt, value: int, s: seq<int>, errno: int)
    ensures var run := SetOptionSpec(fd, opt, value, s, errno);
      && (run.outcome.Raised? <==> Reply(s) < 0)
      && (run.outcome.Raised? ==> run.effects == [Closed(fd)]
                                  && run.outcome.error == SocketException(run.errno)
                                  && run.errno == -Reply(s))
      && (run.outcome.Done? ==> run.effects == [OptionSet(fd, opt, value)] && run.errno == errno)
      && run.rest == Advance(s)
  {
  }

  /** `setTcpNoDelay` then `setKeepAlive`: the two options every TCP socket gets. */
  function TcpOptionsSpec(fd: Fd, s: seq<int>, errno: int): Run<()>
  {
    var noDelay := SetOptionSpec(fd, TcpNoDelay, 1, s, errno);
    if noDelay.outcome.Raised? then noDelay
    else After(noDelay.effects, SetOptionSpec(fd, KeepAlive, 1, noDelay.rest, noDelay.errno))
  }

  /** The TCP options either are both set, or the descriptor is closed and
      nothing further is tried. */
  lemma TcpOptionsOutcome(fd: Fd, s: seq<int>, errno: int)
    ensures var run := TcpOptionsSpec(fd, s, errno);
      && (run.outcome.Done? <==> run.effects == [OptionSet(fd, TcpNoDelay, 1), OptionSet(fd, KeepAlive, 1)])
      && (run.outcome.Raised? ==> run.outcome.error.SocketException?
                                  && run.effects[|run.effects| - 1] == Closed(fd)
                                  && Closed(fd) !in run.effects[..|run.effects| - 1])
  {
  }

  /** `createSocket`: `socket()`, then for TCP the two options. */
  function CreateSocketSpec(udp: bool, s: seq<int>, errno: int): Run<Fd>
  {
    var rc := Reply(s);
    if rc < 0 then Run(Raised(SocketException(-rc)), Advance(s), -rc, [])
    else if udp then Run(Done(rc), Advance(s), errno, [Opened(rc)])
    else After([Opened(rc)], WithValue(TcpOptionsSpec(rc, Advance(s), errno), rc))
  }

  /** `createSocket` returns an open descriptor which, for TCP, has no-delay and
      keep-alive set; or it raises and leaves nothing open. */
  lemma CreateSocketOutcome(udp: bool, s: seq<int>, errno: int)
    ensures var run := CreateSocketSpec(udp, s, errno);
      && (run.outcome.Done? ==>
            && run.outcome.value == Reply(s) >= 0
            && run.effects == [Opened(run.outcome.value)]
                 + (if udp then [] else [OptionSet(run.outcome.value, TcpNoDelay, 1),
                                         OptionSet(run.outcome.value, KeepAlive, 1)]))
      && (run.outcome.Raised? ==> run.outcome.error.SocketException? && NoLeak(run.effects))
      && (run.outcome.Raised? <==> Reply(s) < 0 || (!udp && (Reply(Advance(s)) < 0 || Reply(Advance(Advance(s))) < 0)))
      && (Reply(s) < 0 ==> run == Run(Raised(SocketException(-Reply(s))), Advance(s), -Reply(s), []))
  {
    var run := CreateSocketSpec(udp, s, errno);
    var rc := Reply(s);
    if rc >= 0 && !udp {
      TcpOptionsOutcome(rc, Advance(s), errno);
      if run.outcome.Raised? {
        var e := run.effects;
        assert e[0] == Opened(rc) && e[|e| - 1] == Closed(rc);
        forall i | 0 <= i < |e| && e[i].Opened?
          ensures exists j :: i < j < |e| && e[j] == Closed(e[i].fd)
        {
          assert i == 0;
          assert e[|e| - 1] == Closed(e[i].fd);
        }
      }
    }
  }

  // ---- blocking mode ----

  /** `O_NONBLOCK` of Linux: bit 11 of the descriptor flags. */
  const O_NONBLOCK := 0x800

  /** Bit 11 of the flags word, read as two's complement (so -1 has every bit set). */
  predicate NonBlocking(flags: int)
  {
    flags % (2 * O_NONBLOCK) >= O_NONBLOCK
  }

  /** `flags &= ~O_NONBLOCK` to block, `flags |= O_NONBLOCK` not to. */
  function BlockFlags(flags: int, block: bool): int
  {
    if block then (if NonBlocking(flags) then flags - O_NONBLOCK else flags)
    else (if NonBlocking(flags) then flags else flags + O_NONBLOCK)
  }

  /** Switching mode sets O_NONBLOCK as asked and keeps every other bit: the
      bits below it and the bits above it. */
  lemma BlockFlagsOnlyNonBlock(flags: int, block: bool)
    ensures NonBlocking(BlockFlags(flags, block)) <==> !block
    ensures BlockFlags(flags, block) % O_NONBLOCK == flags % O_NONBLOCK
    ensures BlockFlags(flags, block) / (2 * O_NONBLOCK) == flags / (2 * O_NONBLOCK)
  {
    var q, r := flags / (2 * O_NONBLOCK), flags % (2 * O_NONBLOCK);
    var g := BlockFlags(flags, block);
    var r' := if g < flags then r - O_NONBLOCK else if g > flags then r + O_NONBLOCK else r;
    assert 0 <= r' < 2 * O_NONBLOCK && g == q * (2 * O_NONBLOCK) + r';
    DivModOf(g, q, r');
    DivModOf(flags, q, r);
    LowBits(q, r');
    LowBits(q, r);
  }

  /** The quotient and remainder by 2 * O_NONBLOCK are determined. */
  lemma DivModOf(x: int, q: int, r: int)
    requires 0 <= r < 2 * O_NONBLOCK && x == q * (2 * O_NONBLOCK) + r
    ensures x / (2 * O_NONBLOCK) == q && x % (2 * O_NONBLOCK) == r
  {
  }

  /** The bits below O_NONBLOCK of `q * (2 * O_NONBLOCK) + r`. */
  lemma LowBits(q: int, r: int)
    requires 0 <= r < 2 * O_NONBLOCK
    ensures (q * (2 * O_NONBLOCK) + r) % O_NONBLOCK == r % O_NONBLOCK
  {
    var m := if r >= O_NONBLOCK then r - O_NONBLOCK else r;
    assert q * (2 * O_NONBLOCK) + r == (2 * q + (r - m) / O_NONBLOCK) * O_NONBLOCK + m;
  }

  /** `setBlock`: read the flags (`fcntl(F_GETFL)`, whose failure is not
      checked: the flags word is then -1), switch the bit, write the flags back
      (`fcntl(F_SETFL)`); on a failed write close and raise. */
  function SetBlockSpec(fd: Fd, block: bool, s: seq<int>, errno: int): Run<()>
  {
    var got := Reply(s);
    var flags := BlockFlags(if got < 0 then -1 else got, block);
    var s1 := Advance(s);
    var rc := Reply(s1);
    if rc < 0 then Run(Raised(SocketException(-rc)), Advance(s1), -rc, [Closed(fd)])
    else Run(Done(()), Advance(s1), ErrnoAfter(s, errno), [FlagsSet(fd, flags)])
  }

  /** `setBlock` writes back the flags it read with only O_NONBLOCK changed, or
      closes the descriptor and raises. */
  lemma SetBlockOutcome(fd: Fd, block: bool, s: seq<int>, errno: int)
    ensures var run := SetBlockSpec(fd, block, s, errno);
      var read := if Reply(s) < 0 then -1 else Reply(s);
      && (run.outcome.Done? ==>
            && |run.effects| == 1 && run.effects[0].FlagsSet? && run.effects[0].fd == fd
            && run.effects[0].flags % O_NONBLOCK == read % O_NONBLOCK
            && run.effects[0].flags / (2 * O_NONBLOCK) == read / (2 * O_NONBLOCK)
            && (NonBlocking(run.effects[0].flags) <==> !block))
      && (run.outcome.Raised? ==> run.effects == [Closed(fd)] && run.outcome.error == SocketException(run.errno))
      && (run.outcome.Raised? <==> Reply(Advance(s)) < 0)
  {
    BlockFlagsOnlyNonBlock(if Reply(s) < 0 then -1 else Reply(s), block);
  }

  /** A failed read of the flags is not noticed: blocking mode then writes
      every bit but O_NONBLOCK as set. */
  lemma SetBlockUncheckedRead(fd: Fd, s: seq<int>, errno: int)
    requires Reply(s) < 0 && Reply(Advance(s)) >= 0
    ensures SetBlockSpec(fd, true, s, errno).effects == [FlagsSet(fd, -1 - O_NONBLOCK)]
  {
    assert NonBlocking(-1);
  }

  // ---- the notification pipe ----

  /** POSIX `createPipe`: `pipe()` (a failure is a SyscallException), then both
      ends to blocking mode; when one end cannot be switched (which closes it)
      the other end is closed too. The kernel's reply `r` stands for the ends
      `r` (read) and `r + 1` (write). */
  function CreatePipeSpec(s: seq<int>, errno: int): Run<(Fd, Fd)>
  {
    var rc := Reply(s);
    if rc < 0 then Run(Raised(SyscallException(-rc)), Advance(s), -rc, [])
    else After([Opened(rc), Opened(rc + 1)], PipeBlockingSpec(rc, rc + 1, Advance(s), errno))
  }

  /** The two `setBlock` calls of `createPipe` on the fresh ends `r` and `w`. */
  function PipeBlockingSpec(r: Fd, w: Fd, s: seq<int>, errno: int): Run<(Fd, Fd)>
  {
    var b0 := SetBlockSpec(r, true, s, errno);
    if b0.outcome.Raised? then
      Run(Raised(b0.outcome.error), b0.rest, b0.errno, b0.effects + [Closed(w)])
    else
      var b1 := SetBlockSpec(w, true, b0.rest, b0.errno);
      if b1.outcome.Raised? then
        Run(Raised(b1.outcome.error), b1.rest, b1.errno, b0.effects + b1.effects + [Closed(r)])
      else Run(Done((r, w)), b1.rest, b1.errno, b0.effects + b1.effects)
  }

  /** A pipe is returned with both ends in blocking mode; a failure leaves
      neither end open. A failed `pipe()` raises a SyscallException and opens
      nothing; a failure to switch an end raises a SocketException. */
  lemma CreatePipeOutcome(s: seq<int>, errno: int)
    ensures var run := CreatePipeSpec(s, errno);
      && (run.outcome.Done? ==>
            var (r, w) := run.outcome.value;
            && |run.effects| == 4 && run.effects[..2] == [Opened(r), Opened(w)]
            && run.effects[2].FlagsSet? && run.effects[2].fd == r && !NonBlocking(run.effects[2].flags)
            && run.effects[3].FlagsSet? && run.effects[3].fd == w && !NonBlocking(run.effects[3].flags))
      && (run.outcome.Raised? ==> NoLeak(run.effects))
      && (Reply(s) < 0 ==> run == Run(Raised(SyscallException(-Reply(s))), Advance(s), -Reply(s), []))
      && (Reply(s) >= 0 && run.outcome.Raised? ==> run.outcome.error.SocketException?)
      && (run.outcome.Raised? <==> Reply(s) < 0 || Reply(Advance(Advance(s))) < 0
                                   || Reply(Advance(Advance(Advance(Advance(s))))) < 0)
  {
    var run := CreatePipeSpec(s, errno);
    var rc := Reply(s);
    if rc >= 0 {
      var pb := PipeBlockingSpec(rc, rc + 1, Advance(s), errno);
      PipeBlockingOutcome(rc, rc + 1, Advance(s), errno);
      assert run == After([Opened(rc), Opened(rc + 1)], pb);
      if run.outcome.Raised? {
        PairClosedLater(rc, rc + 1, pb.effects);
        assert run.effects == [Opened(rc), Opened(rc + 1)] + pb.effects;
      }
    }
  }

  /** Two descriptors opened and then both closed, with nothing else opened. */
  lemma PairClosedLater(a: Fd, b: Fd, tail: seq<Effect>)
    requires Closed(a) in tail && Closed(b) in tail
    requires forall i :: 0 <= i < |tail| ==> !tail[i].Opened?
    ensures NoLeak([Opened(a), Opened(b)] + tail)
  {
    var e := [Opened(a), Opened(b)] + tail;
    forall i | 0 <= i < |e| && e[i].Opened?
      ensures exists j :: i < j < |e| && e[j] == Closed(e[i].fd)
    {
      var k :| 0 <= k < |tail| && tail[k] == Closed(e[i].fd);
      assert e[k + 2] == Closed(e[i].fd);
    }
  }

  /** Both ends end up in blocking mode; or both are closed and nothing else
      is opened. */
  lemma PipeBlockingOutcome(r: Fd, w: Fd, s: seq<int>, errno: int)
    ensures var run := PipeBlockingSpec(r, w, s, errno);
      && (forall i :: 0 <= i < |run.effects| ==> !run.effects[i].Opened?)
      && (run.outcome.Done? ==>
            && run.outcome.value == (r, w) && |run.effects| == 2
            && run.effects[0].FlagsSet? && run.effects[0].fd == r && !NonBlocking(run.effects[0].flags)
            && run.effects[1].FlagsSet? && run.effects[1].fd == w && !NonBlocking(run.effects[1].flags))
      && (run.outcome.Raised? ==> Closed(r) in run.effects && Closed(w) in run.effects
                                  && run.outcome.error.SocketException?)
      && (run.outcome.Raised? <==> Reply(Advance(s)) < 0 || Reply(Advance(Advance(Advance(s)))) < 0)
  {
    var b0 := SetBlockSpec(r, true, s, errno);
    SetBlockOutcome(r, true, s, errno);
    if b0.outcome.Done? {
      var b1 := SetBlockSpec(w, true, b0.rest, b0.errno);
      SetBlockOutcome(w, true, b0.rest, b0.errno);
      if b1.outcome.Raised? {
        var run := PipeBlockingSpec(r, w, s, errno);
        assert run.effects == [b0.effects[0], Closed(w), Closed(r)];
      }
    }
  }

  // ---- buffer sizes ----

  /** The property default: 0 ("keep the system default") on POSIX platforms. */
  const DefaultBufSize := 0

  /** `getPropertyAsIntWithDefault` over the properties given as numbers. */
  function PropertyAsIntWithDefault(props: map<string, int>, key: string, dflt: int): int
  {
    if key in props then props[key] else dflt
  }

  /** The text the logger receives for a warning. */
  function WarningText(w: Warning): string
  {
    match w
    case BufSizeAdjusted(opt, requested, granted) =>
      "TCP " + (if opt == RecvBuffer then "receive" else "send") + " buffer size: requested size of "
        + IntToString(requested) + " adjusted to " + IntToString(granted)
  }

  /** The logger can tell the two buffers apart: a receive-buffer warning
      never reads like a send-buffer warning, whatever the sizes. */
  lemma WarningTextNamesBuffer(r1: int, g1: int, r2: int, g2: int)
    ensures WarningText(BufSizeAdjusted(RecvBuffer, r1, g1)) != WarningText(BufSizeAdjusted(SendBuffer, r2, g2))
  {
    var rcv := WarningText(BufSizeAdjusted(RecvBuffer, r1, g1));
    var snd := WarningText(BufSizeAdjusted(SendBuffer, r2, g2));
    assert rcv[4] == 'r' && snd[4] == 's';
  }

  /** `sub` occurs in `t` starting at index `i`. */
  predicate OccursAt(sub: string, t: string, i: int)
  {
    0 <= i && i + |sub| <= |t| && t[i..i + |sub|] == sub
  }

  /** A warning reports both sizes: the requested size occurs in its text, and
      the text ends with the granted size. */
  lemma WarningTextReportsSizes(opt: SockOpt, requested: int, granted: int)
    ensures var t := WarningText(BufSizeAdjusted(opt, requested, granted));
      && (exists i :: OccursAt(IntToString(requested), t, i))
      && OccursAt(IntToString(granted), t, |t| - |IntToString(granted)|)
  {
    var t := WarningText(BufSizeAdjusted(opt, requested, granted));
    var p := "TCP " + (if opt == RecvBuffer then "receive" else "send") + " buffer size: requested size of ";
    var q := IntToString(requested);
    var g := IntToString(granted);
    assert t == p + q + (" adjusted to " + g);
    assert t[|p|..|p| + |q|] == q;
    assert OccursAt(q, t, |p|);
    assert t[|t| - |g|..] == g;
  }

  /** One half of `setTcpBufSize`: nothing when the requested size is not
      positive; otherwise set it, then check what the kernel granted. */
  function BufSizeStepSpec(fd: Fd, requested: int, opt: SockOpt, s: seq<int>, errno: int): Run<()>
  {
    if requested <= 0 then Run(Done(()), s, errno, [])
    else
      var applied := SetOptionSpec(fd, opt, requested, s, errno);
      if applied.outcome.Raised? then applied
      else After(applied.effects, GrantCheckSpec(fd, requested, opt, applied.rest, applied.errno))
  }

  /** Reading the size back (a failure closes the descriptor) and warning when
      the kernel granted less than `requested`. */
  function GrantCheckSpec(fd: Fd, requested: int, opt: SockOpt, s: seq<int>, errno: int): Run<()>
  {
    var got := GetOptionSpec(fd, s, errno);
    if got.outcome.Raised? then Unit(got)
    else
      var granted := got.outcome.value;
      Run(Done(()), got.rest, got.errno,
          if granted < requested then [Warned(BufSizeAdjusted(opt, requested, granted))] else [])
  }

  /** `setTcpBufSize`: the receive buffer ("Ice.TCP.RcvSize"), then the send
      buffer ("Ice.TCP.SndSize"). */
  function TcpBufSizeSpec(fd: Fd, props: map<string, int>, s: seq<int>, errno: int): Run<()>
  {
    var rcv := BufSizeStepSpec(fd, PropertyAsIntWithDefault(props, "Ice.TCP.RcvSize", DefaultBufSize),
                               RecvBuffer, s, errno);
    if rcv.outcome.Raised? then rcv
    else After(rcv.effects, BufSizeStepSpec(fd, PropertyAsIntWithDefault(props, "Ice.TCP.SndSize", DefaultBufSize),
                                            SendBuffer, rcv.rest, rcv.errno))
  }

  /** Number of warnings among the effects. */
  function WarningCount(effects: seq<Effect>): nat
  {
    if effects == [] then 0
    else (if effects[|effects| - 1].Warned? then 1 else 0) + WarningCount(effects[..|effects| - 1])
  }

  lemma {:induction false} WarningCountAppend(e1: seq<Effect>, e2: seq<Effect>)
    ensures WarningCount(e1 + e2) == WarningCount(e1) + WarningCount(e2)
    decreases |e2|
  {
    if e2 == [] {
      assert e1 + e2 == e1;
    } else {
      assert (e1 + e2)[..|e1 + e2| - 1] == e1 + e2[..|e2| - 1];
      WarningCountAppend(e1, e2[..|e2| - 1]);
    }
  }

  /** A non-positive request touches nothing; a positive one sets the size and
      warns exactly once when the size read back is smaller than requested. */
  lemma BufSizeStepOutcome(fd: Fd, requested: int, opt: SockOpt, s: seq<int>, errno: int)
    ensures var run := BufSizeStepSpec(fd, requested, opt, s, errno);
      && (requested <= 0 ==> run == Run(Done(()), s, errno, []))
      && (requested > 0 && run.outcome.Done? ==>
            var granted := Reply(Advance(s));
            && run.effects[0] == OptionSet(fd, opt, requested)
            && WarningCount(run.effects) == (if granted < requested then 1 else 0))
      && (run.outcome.Raised? ==> run.effects[|run.effects| - 1] == Closed(fd) && WarningCount(run.effects) == 0)
      && (requested > 0 ==> (run.outcome.Raised? <==> Reply(s) < 0 || Reply(Advance(s)) < 0))
  {
    var run := BufSizeStepSpec(fd, requested, opt, s, errno);
    if requested > 0 {
      var e := run.effects;
      if Reply(s) >= 0 {
        var w := [OptionSet(fd, opt, requested)];
        if Reply(Advance(s)) >= 0 {
          var granted := Reply(Advance(s));
          var tail := if granted < requested then [Warned(BufSizeAdjusted(opt, requested, granted))] else [];
          assert e == w + tail;
          WarningCountAppend(w, tail);
          assert WarningCount(w) == 0 by { assert w[..0] == []; }
          if tail != [] { assert tail[..0] == []; }
        } else {
          assert e == w + [Closed(fd)];
          WarningCountAppend(w, [Closed(fd)]);
          assert WarningCount(w) == 0 by { assert w[..0] == []; }
          assert WarningCount([Closed(fd)]) == 0 by { assert [Closed(fd)][..0] == []; }
        }
      } else {
        assert e == [Closed(fd)];
        assert WarningCount(e) == 0 by { assert e[..0] == []; }
      }
    }
  }

  /** With neither property given, POSIX defaults to 0 and `setTcpBufSize`
      issues no call and changes nothing. */
  lemma TcpBufSizeDefaults(fd: Fd, props: map<string, int>, s: seq<int>, errno: int)
    requires "Ice.TCP.RcvSize" !in props && "Ice.TCP.SndSize" !in props
    ensures TcpBufSizeSpec(fd, props, s, errno) == Run(Done(()), s, errno, [])
  {
  }

  /** At most one warning per buffer, each only when the kernel granted less. */
  lemma TcpBufSizeWarnings(fd: Fd, props: map<string, int>, s: seq<int>, errno: int)
    ensures var run := TcpBufSizeSpec(fd, props, s, errno);
      WarningCount(run.effects) <= 2
  {
    var rcvReq := PropertyAsIntWithDefault(props, "Ice.TCP.RcvSize", DefaultBufSize);
    var sndReq := PropertyAsIntWithDefault(props, "Ice.TCP.SndSize", DefaultBufSize);
    var rcv := BufSizeStepSpec(fd, rcvReq, RecvBuffer, s, errno);
    BufSizeStepOutcome(fd, rcvReq, RecvBuffer, s, errno);
    if rcv.outcome.Done? {
      var snd := BufSizeStepSpec(fd, sndReq, SendBuffer, rcv.rest, rcv.errno);
      BufSizeStepOutcome(fd, sndReq, SendBuffer, rcv.rest, rcv.errno);
      WarningCountAppend(rcv.effects, snd.effects);
    }
  }
}

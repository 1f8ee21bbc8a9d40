# Ice socket helpers, modelled in Dafny

This project models the socket helper layer of Ice (`IceInternal` in
`cpp/src/Ice/Network.cpp`). Ice's TCP and UDP transports use this layer to:

- create, configure, bind, connect, accept and close sockets;
- resolve host names into socket addresses, and compare those addresses;
- list the local interface addresses that an endpoint published on a
  wildcard host expands to;
- apply the `Ice.TCP.RcvSize` / `Ice.TCP.SndSize` buffer settings.

The model follows the Linux/glibc build of the layer.

## How the operating system is modelled

- Every operation is a method of `Network.Os`. Its fields are:
  - the process's `errno`;
  - the kernel's remaining replies, a script of integers: a non-negative
    entry is a successful return value, `-e` is a failure with `errno == e`,
    and an exhausted script answers `-EIO`;
  - the set of open descriptors;
  - a trace of observable effects: a descriptor opened or closed, a socket
    option set, file status flags written, a warning logged;
  - the resolver's remaining `getaddrinfo` replies, and the log of the
    queries it was asked.
- Each method is proved to perform exactly the run described by a
  specification function of the same inputs (`Completes(Spec(..))`).
  That run is the outcome, the rest of the script, the new `errno` and the
  effects.
- Lemmas about the specification functions prove what the layer promises:
  - close-on-error behaviour;
  - error classification;
  - no descriptor leaked (`Kernel.NoLeak`);
  - the retry bound;
  - first-seen de-duplication;
  - the ordering of addresses.
- `Valid()` states that the open set is what the recorded effects leave of
  the initial one. Every method that touches descriptors preserves it.
- Where the code must talk to something outside itself, the model uses
  parameters in `Kernel.Env`:
  - `getsockname` / `getpeername` results are `localOf` / `peerOf`;
  - numeric host printing (`getnameinfo`) is `hostOf`;
  - the interface list of `getifaddrs` is `interfaces`;
  - whether the build is Linux is `linux`.

Modules:

| Module | File | Contents |
|---|---|---|
| `Kernel` | `kernel.dfy` | the reply script, the effect trace, runs |
| `SocketErrors` | `errors.dfy` | the errno predicates and the connect error classification |
| `Address` | `address.dfy` | socket addresses, ports in network byte order, `compareAddress`, printing |
| `Decimal` | `decimal.dfy` | decimal text for ports |
| `Configure` | `config.dfy` | socket options, `createSocket`, `setBlock`, `createPipe`, `setTcpBufSize` |
| `Establish` | `establish.dfy` | bind, listen, connect, finish-connect, accept, `fdToString` |
| `Resolution` | `resolution.dfy` | `getaddrinfo` retries, `getAddresses`, `getAddressImpl`, `isWildcard`, local addresses, endpoint expansion |
| `Network` | `network.dfy` | the class `Os` whose methods perform all of the above |

## Model

| member | source | states |
|---|---|---|
| SocketErrors.ClassifyConnect | cpp/src/Ice/Network.cpp:1004-1021 | a failed connect raises ConnectionRefusedException exactly for ECONNREFUSED; ConnectFailedException exactly for the other connect-failure codes; SocketException otherwise; the code is always carried |
| SocketErrors.Interrupted | cpp/src/Ice/Network.cpp:405-416 | EINTR, and EPROTO on Linux, mean "call again"; see `SocketErrors.InterruptedIsAcceptInterrupted` |
| SocketErrors.AcceptInterrupted | cpp/src/Ice/Network.cpp:419-436 | accept also calls again after ECONNABORTED, ECONNRESET and ETIMEDOUT; see `SocketErrors.InterruptedIsAcceptInterrupted` |
| SocketErrors.NoBuffers | cpp/src/Ice/Network.cpp:439-448 | ENOBUFS |
| SocketErrors.WouldBlock | cpp/src/Ice/Network.cpp:451-458 | EAGAIN or EWOULDBLOCK; see `Establish.AcceptWaits` |
| SocketErrors.ConnectFailed | cpp/src/Ice/Network.cpp:461-481 | the codes that make a connection attempt fail; see `SocketErrors.ClassifyConnect` and `SocketErrors.RefusedIsFailed` |
| SocketErrors.ConnectionRefused | cpp/src/Ice/Network.cpp:484-492 | ECONNREFUSED; see `SocketErrors.ClassifyConnect` |
| SocketErrors.ConnectInProgress | cpp/src/Ice/Network.cpp:495-502 | EINPROGRESS; see `Establish.ConnectOutcome` |
| SocketErrors.ConnectionLost | cpp/src/Ice/Network.cpp:505-520 | the codes of a connection gone away; see `SocketErrors.NotConnectedIsLost` |
| SocketErrors.NotConnected | cpp/src/Ice/Network.cpp:523-532 | ENOTCONN; see `SocketErrors.NotConnectedIsLost` and `Establish.AddressQueriesCloseOnlyOnRaise` |
| SocketErrors.RefusedIsFailed | cpp/src/Ice/Network.cpp:461-492 | every refused connection is also a failed connection, which is why refusal is checked first |
| SocketErrors.InterruptedIsAcceptInterrupted | cpp/src/Ice/Network.cpp:405-436 | every interrupted call is also an interrupted accept |
| SocketErrors.NotConnectedIsLost | cpp/src/Ice/Network.cpp:505-532 | on Linux "not connected" is a lost connection; a lost connection is never retried as interrupted or would-block |
| Address.GetPort | cpp/src/Ice/Network.cpp:1879-1889 | the port returned is the stored port converted from network byte order |
| Address.PortRoundTrip | cpp/src/Ice/Network.cpp:1883-1887 | `ntohs` and `htons` are inverse on 16-bit values |
| Address.WithPort | cpp/src/Ice/Network.cpp:1341-1350 | storing a port with `htons` keeps the family, the address bytes and, for IPv6, the flow information and scope id; reading the port back gives the port modulo 2^16 |
| Address.Cmp | cpp/src/Ice/Network.cpp:1380-1440 | each scalar field comparison yields -1, 0 or 1, with 0 iff equal and -1 iff less |
| Address.MemCmp | cpp/src/Ice/Network.cpp:1428-1436 | the `memcmp` of address bytes is normalised to -1, 0 or 1 |
| Address.MemCmpZero | cpp/src/Ice/Network.cpp:1428-1436 | the byte comparison is 0 exactly when the bytes are equal |
| Address.MemCmpAntisymmetric | cpp/src/Ice/Network.cpp:1428-1436 | swapping the operands negates the byte comparison |
| Address.MemCmpTransitive | cpp/src/Ice/Network.cpp:1428-1436 | the byte comparison is transitive, strictly when either step is strict |
| Address.Compare | cpp/src/Ice/Network.cpp:1380-1440 | `compareAddress` yields -1, 0 or 1 |
| Address.CompareReflexive | cpp/src/Ice/Network.cpp:1380-1440 | every address compares equal to itself |
| Address.CompareAntisymmetric | cpp/src/Ice/Network.cpp:1380-1440 | swapping the operands negates the comparison |
| Address.CompareTransitive | cpp/src/Ice/Network.cpp:1380-1440 | the comparison is transitive, strictly when either step is strict, so it is a total preorder |
| Address.CompareZeroTransitive | cpp/src/Ice/Network.cpp:1380-1440 | comparing equal is transitive |
| Address.CompareZeroIff | cpp/src/Ice/Network.cpp:1380-1440 | two addresses compare equal exactly when family, port and address bytes agree |
| Address.CompareIgnoresScope | cpp/src/Ice/Network.cpp:1414-1437 | IPv6 flow information and scope id do not take part in the comparison |
| Address.StoredPortOrderIsNotNumeric | cpp/src/Ice/Network.cpp:1396-1403 | ports are compared as stored in network order, so port 1 sorts after port 256 |
| Address.AddressesToString | cpp/src/Ice/Network.cpp:1789-1803 | the text starts with "local address = " and ends in `>` exactly when the peer is not connected |
| Address.AddrToStringPort | cpp/src/Ice/Network.cpp:1860-1876 | the host text is followed by `:` and the decimal port, which reads back as `getPort` of the address |
| Address.AddrToString | cpp/src/Ice/Network.cpp:1860-1876 | the host text, a colon and the decimal port; its properties are `Address.AddrToStringPort` |
| Decimal.NatToString | cpp/src/Ice/Network.cpp:1868-1873 | a port prints as a non-empty string of digits without leading zeros |
| Decimal.NatRoundTrip | cpp/src/Ice/Network.cpp:1868-1873 | parsing the printed decimal gives the number back |
| Decimal.NatToStringInjective | cpp/src/Ice/Network.cpp:1868-1873 | distinct ports print differently |
| Kernel.SkipInterrupted | cpp/src/Ice/Network.cpp:941-956 | the retry-on-EINTR loops stop at the first reply that is not an interrupted failure, and never lengthen the script |
| Kernel.SkipInterruptedSkipsOnly | cpp/src/Ice/Network.cpp:941-956 | what the retry loops pass over is a prefix of the script made only of interrupted failures, and the rest is the script after it |
| Network.Os.Syscall | cpp/src/Ice/Network.cpp:395-402 | a libc call returns its reply or SOCKET_ERROR; a failure sets `errno`; the script advances by one |
| Network.Os.NewDescriptor | cpp/src/Ice/Network.cpp:546-573 | a descriptor-creating call records `Opened` exactly when it returns a valid descriptor |
| Network.Os.Close | cpp/src/Ice/Network.cpp:576-611 | `close` removes the descriptor from the open set; it fails with EBADF exactly when the descriptor was not open |
| Network.Os.CloseSocketNoThrow | cpp/src/Ice/Network.cpp:600-611 | closes the descriptor and restores the `errno` it found |
| Network.Os.CloseSocket | cpp/src/Ice/Network.cpp:576-597 | closes the descriptor; raises SocketException(EBADF) exactly when it was not open |
| Configure.SetOptionCloseOnFailure | cpp/src/Ice/Network.cpp:738-903 | a failed `setsockopt` closes the socket and raises SocketException with its errno; a successful one records the option and leaves `errno` alone |
| Network.Os.SetOption | cpp/src/Ice/Network.cpp:738-773 | performs exactly the set-option run (effects, outcome, `errno`) |
| Network.Os.SetTcpNoDelay | cpp/src/Ice/Network.cpp:738-748 | sets TCP_NODELAY to 1, closing the socket on failure |
| Network.Os.SetKeepAlive | cpp/src/Ice/Network.cpp:751-761 | sets SO_KEEPALIVE to 1, closing the socket on failure |
| Network.Os.SetSendBufferSize | cpp/src/Ice/Network.cpp:764-773 | sets SO_SNDBUF, closing the socket on failure |
| Network.Os.SetRecvBufferSize | cpp/src/Ice/Network.cpp:791-800 | sets SO_RCVBUF, closing the socket on failure |
| Network.Os.SetReuseAddress | cpp/src/Ice/Network.cpp:893-903 | sets SO_REUSEADDR to 1 or 0, closing the socket on failure |
| Network.Os.SetMcastTtl | cpp/src/Ice/Network.cpp:872-890 | sets the IPv4 multicast TTL or IPv6 hop limit, closing the socket on failure |
| Network.Os.GetBufferSize | cpp/src/Ice/Network.cpp:776-815 | `getsockopt` returns the size, or closes the socket and raises SocketException |
| Network.Os.GetSendBufferSize | cpp/src/Ice/Network.cpp:776-788 | reads SO_SNDBUF as the buffer-size run describes |
| Network.Os.GetRecvBufferSize | cpp/src/Ice/Network.cpp:803-815 | reads SO_RCVBUF as the buffer-size run describes |
| Configure.TcpOptionsOutcome | cpp/src/Ice/Network.cpp:1227-1228 | no-delay then keep-alive succeed together or the socket is closed exactly once, as the last effect, with a SocketException |
| Network.Os.SetTcpOptions | cpp/src/Ice/Network.cpp:1227-1228 | performs exactly that run |
| Configure.CreateSocketOutcome | cpp/src/Ice/Network.cpp:546-573 | it raises exactly when `socket()` fails or, for TCP, setting no-delay or keep-alive fails; a failed `socket()` raises SocketException with its code and has no effect; a created socket is returned with only its `Opened` effect (UDP) or also no-delay and keep-alive (TCP); every failure raises SocketException and leaks no descriptor |
| Network.Os.CreateSocket | cpp/src/Ice/Network.cpp:546-573 | performs exactly the create-socket run |
| Configure.BlockFlagsOnlyNonBlock | cpp/src/Ice/Network.cpp:700-733 | the new flags have O_NONBLOCK clear iff blocking is asked for; every other bit of the old flags is kept |
| Configure.SetBlockOutcome | cpp/src/Ice/Network.cpp:687-735 | `setBlock` raises exactly when the `F_SETFL` write fails, then closing the socket and raising SocketException with that code; a success writes exactly one flag word that differs from the read one only in O_NONBLOCK |
| Configure.SetBlockUncheckedRead | cpp/src/Ice/Network.cpp:700-733 | a failed `F_GETFL` goes unnoticed: its -1 is used as the flags and written back without O_NONBLOCK |
| Network.Os.SetBlock | cpp/src/Ice/Network.cpp:687-735 | performs exactly the set-block run |
| Configure.CreatePipeOutcome | cpp/src/Ice/Network.cpp:1506-1535 | it raises exactly when `pipe` or one of the two `F_SETFL` writes fails; a failed `pipe` raises SyscallException with its code and has no effect; otherwise both ends are opened and, on success, made blocking; every later failure is a SocketException, and no descriptor is left open after a failure |
| Configure.PipeBlockingOutcome | cpp/src/Ice/Network.cpp:1515-1533 | making the two ends blocking raises exactly when one of the two `F_SETFL` writes fails; it opens nothing; success sets both ends blocking; a failure raises SocketException and closes both ends |
| Network.Os.CreatePipe | cpp/src/Ice/Network.cpp:1506-1535 | performs exactly the create-pipe run |
| Network.Os.BlockPipeEnds | cpp/src/Ice/Network.cpp:1515-1533 | performs exactly the run that makes both pipe ends blocking |
| Configure.BufSizeStepOutcome | cpp/src/Ice/Network.cpp:1942-1974 | a size of 0 or less does nothing; otherwise the step raises exactly when setting the size or reading it back fails, and then closes the socket and logs nothing; a success sets the size first and logs exactly one warning iff the granted size is below the requested one |
| Configure.WarningText | cpp/src/Ice/Network.cpp:1952-1956 | the text of a buffer-size warning; its property is `Configure.WarningTextNamesBuffer` |
| Configure.WarningTextNamesBuffer | cpp/src/Ice/Network.cpp:1952-1973 | the receive-buffer warning and the send-buffer warning never read the same, whatever the sizes |
| Configure.WarningTextReportsSizes | cpp/src/Ice/Network.cpp:1952-1956 | a warning's text contains the decimal requested size and ends with the decimal granted size |
| Configure.TcpBufSizeDefaults | cpp/src/Ice/Network.cpp:1935-1960 | with neither property set (default 0) nothing is done at all |
| Configure.TcpBufSizeWarnings | cpp/src/Ice/Network.cpp:1927-1975 | at most two warnings are logged, one per buffer |
| Network.Os.BufSizeStep | cpp/src/Ice/Network.cpp:1943-1957 | performs exactly one buffer's set-and-check run |
| Network.Os.CheckGranted | cpp/src/Ice/Network.cpp:1951-1956 | performs exactly the read-back-and-warn run |
| Network.Os.SetTcpBufSize | cpp/src/Ice/Network.cpp:1927-1975 | performs the receive-buffer step then the send-buffer step |
| Establish.AddressQueriesCloseOnlyOnRaise | cpp/src/Ice/Network.cpp:1806-1838 | `fdToLocalAddress` / `fdToRemoteAddress` close the socket exactly when they raise; the remote query returns false exactly for ENOTCONN and otherwise raises SocketException |
| Establish.LocalAddressSpec | cpp/src/Ice/Network.cpp:1806-1816 | `fdToLocalAddress`; its properties are `Establish.AddressQueriesCloseOnlyOnRaise` |
| Establish.RemoteAddressSpec | cpp/src/Ice/Network.cpp:1819-1838 | `fdToRemoteAddress`; its properties are `Establish.AddressQueriesCloseOnlyOnRaise` |
| Network.Os.FdToLocalAddress | cpp/src/Ice/Network.cpp:1806-1816 | performs exactly the local-address run |
| Network.Os.FdToRemoteAddress | cpp/src/Ice/Network.cpp:1819-1838 | performs exactly the remote-address run |
| Establish.FdToStringOutcome | cpp/src/Ice/Network.cpp:1772-1786 | an invalid descriptor prints `<closed>` with no effect; otherwise the text starts with "local address = " and ends in `>` exactly when `getpeername` failed; a failure closes the socket |
| Network.Os.FdToString | cpp/src/Ice/Network.cpp:1772-1786 | performs exactly the fd-to-string run |
| Establish.BindOutcome | cpp/src/Ice/Network.cpp:906-938 | a failed `bind` closes the socket and raises SocketException; success returns the bound local address and closes nothing |
| Establish.BindSpec | cpp/src/Ice/Network.cpp:906-938 | `doBind`; its properties are `Establish.BindOutcome` |
| Network.Os.DoBind | cpp/src/Ice/Network.cpp:906-938 | performs exactly the bind run |
| Establish.ListenOutcome | cpp/src/Ice/Network.cpp:941-956 | `listen` is retried over EINTR; the first other failure closes the socket and raises SocketException with that code |
| Establish.ListenSpec | cpp/src/Ice/Network.cpp:941-956 | `doListen`; its properties are `Establish.ListenOutcome` |
| Network.Os.DoListen | cpp/src/Ice/Network.cpp:941-956 | performs exactly the listen run |
| Establish.PollSpec | cpp/src/Ice/Network.cpp:1074-1093 | each wait consumes at least one reply |
| Establish.PollOutcome | cpp/src/Ice/Network.cpp:1074-1093 | waiting retries over EINTR, then expires on 0 (ConnectTimeoutException in finish-connect, TimeoutException in accept), raises SocketException on an error, and proceeds on readiness, with no effect |
| Establish.PeerSelfCheckSpec | cpp/src/Ice/Network.cpp:1141-1156 | the Linux self-check as written, through `fdToLocalAddress` and `fdToRemoteAddress`, which close the socket when they raise; its properties are `Establish.SoErrorOutcome` |
| Establish.QuietSelfCheckSpec | cpp/src/Ice/Network.cpp:1141-1156 | the same self-check with address queries that raise without closing, as the note at lines 1045-1048 asks; its properties are `Establish.SoErrorOutcome` |
| Establish.SoErrorSpec | cpp/src/Ice/Network.cpp:1106-1156 | reading SO_ERROR, classifying a pending error, then the Linux self-check; its properties are `Establish.SoErrorOutcome` |
| Establish.FinishConnectWith | cpp/src/Ice/Network.cpp:1043-1157 | the wait unless the timeout is 0, then the SO_ERROR step; its properties are `Establish.FinishConnectOutcome` |
| Establish.FinishConnectSpec | cpp/src/Ice/Network.cpp:1043-1157 | `doFinishConnect` as written; its properties are `Establish.FinishConnectOutcome`, `Establish.FinishConnectCloses` and `Establish.FinishConnectPendingError` |
| Network.Os.Poll | cpp/src/Ice/Network.cpp:1074-1093 | performs exactly the wait run |
| Establish.FinishConnectCloses | cpp/src/Ice/Network.cpp:1043-1157 | finishing a connection as written closes nothing, or only the socket, and that only on Linux when `getsockname` raises |
| Establish.FinishConnectOutcome | cpp/src/Ice/Network.cpp:1043-1157 | for every timeout and either self-check: the wait (skipped for timeout 0) expires with ConnectTimeoutException or fails with SocketException, with no effect; then a failed `getsockopt` raises SocketException, a pending error raises its classification, and otherwise the SO_ERROR step decides |
| Establish.SoErrorOutcome | cpp/src/Ice/Network.cpp:1107-1156 | the SO_ERROR step: a failed read raises SocketException, a pending error its classification, with no effect; off Linux it succeeds; on Linux a failed `getsockname` raises SocketException (closing only in the as-written run), ENOTCONN from `getpeername` means success, any other failure raises SocketException, and a connected socket is refused with code 0 iff its peer compares equal to its local address |
| Establish.FinishConnectPendingError | cpp/src/Ice/Network.cpp:1107-1139 | for every timeout, once the wait (if any) reports readiness, a pending SO_ERROR raises the exception its code classifies to, sets `errno` to it and closes nothing |
| Establish.FinishConnectIntendedSpec | cpp/src/Ice/Network.cpp:1043-1048 | the finish its opening note describes: the same wait and SO_ERROR steps, with a self-check whose address queries never close; its properties are `Establish.FinishConnectIntendedAgrees` |
| Establish.FinishConnectIntendedAgrees | cpp/src/Ice/Network.cpp:1043-1157 | the corrected finish has no effect at all, and agrees with the finish as written on the outcome, the remaining replies and `errno` |
| Establish.SoErrorQuietAgrees | cpp/src/Ice/Network.cpp:1107-1156 | the SO_ERROR step and self-check without closing have no effect and agree with the closing ones on outcome, rest and `errno` |
| Network.Os.DoFinishConnect | cpp/src/Ice/Network.cpp:1043-1157 | performs the finish-connect run without closing the socket, and touches neither descriptors nor trace |
| Establish.ConnectOutcome | cpp/src/Ice/Network.cpp:959-1040 | connect retries over EINTR; a failure other than EINPROGRESS closes the socket then raises the classified exception; EINPROGRESS with timeout 0 returns false; a raised finish closes the socket last; success closes nothing; with the intended finish the socket is closed at most once; the result after a finish is stated by `Establish.ConnectResult`, and after an immediate success off Linux by `Establish.ConnectImmediate` |
| Establish.ConnectImmediate | cpp/src/Ice/Network.cpp:977-1040 | off Linux, a `connect` that succeeds after any interruptions returns true with no effect |
| Establish.ConnectResult | cpp/src/Ice/Network.cpp:977-1040 | after EINPROGRESS (past any interruptions) with a timeout other than 0, connect returns true exactly when finishing the connection succeeds and otherwise raises the finish's own exception |
| Establish.ConnectWith | cpp/src/Ice/Network.cpp:959-1040 | `doConnect` over either finish; its properties are `Establish.ConnectOutcome` and `Establish.ConnectSelfRefusal` |
| Establish.ConnectSpec | cpp/src/Ice/Network.cpp:959-1040 | `doConnect` as written; its properties are `Establish.ConnectOutcome` and `Establish.ConnectClosesTwice` |
| Establish.ConnectSelfRefusal | cpp/src/Ice/Network.cpp:977-1038 | on Linux, when `connect` succeeds (after any interruptions) and so does `getsockname`, connect raises ConnectionRefusedException(0) exactly when the local address compares equal to the target, and returns true otherwise, with no effect either way |
| Establish.ConnectIntendedClosesOnce | cpp/src/Ice/Network.cpp:991-999 | with a finish that does not close, every failed asynchronous connect closes the socket exactly once |
| Establish.ConnectClosesTwice | cpp/src/Ice/Network.cpp:991-999 | as written, a Linux `getsockname` failure during finish-connect closes the socket twice |
| Network.Os.DoConnect | cpp/src/Ice/Network.cpp:959-1040 | performs exactly the connect run built on the intended finish |
| Establish.AcceptOutcome | cpp/src/Ice/Network.cpp:1160-1230 | accept returns a descriptor only after no-delay and keep-alive are set on it; it raises only SocketException or TimeoutException; it leaks nothing and closes no descriptor but the one it accepted |
| Establish.SkipAcceptInterrupted | cpp/src/Ice/Network.cpp:1168-1174 | the accept loop passes over the failures it retries at once and stops at the first other reply, never lengthening the script |
| Establish.SkipAcceptInterruptedSkipsOnly | cpp/src/Ice/Network.cpp:1168-1174 | what the accept loop passes over is a prefix of the script made only of failures it retries at once, and the rest is the script after it |
| Establish.AcceptDecides | cpp/src/Ice/Network.cpp:1168-1230 | decided by the first accept reply not retried at once: a descriptor is returned (as itself) iff no-delay and keep-alive are then set on it, and a failure closes it last with SocketException; an error other than would-block raises SocketException with that code and no effect |
| Establish.AcceptWaits | cpp/src/Ice/Network.cpp:1176-1217 | after would-block, the first poll answer that is not an interruption decides: 0 raises TimeoutException, an error raises SocketException with its code, both with no effect; readiness starts accept over on the replies after the wait |
| Establish.AcceptedRun | cpp/src/Ice/Network.cpp:1227-1229 | an accepted descriptor is opened first, handed back iff both options are set, and closed last with a SocketException otherwise |
| Establish.AcceptSpec | cpp/src/Ice/Network.cpp:1160-1230 | `doAccept`; its properties are `Establish.AcceptDecides`, `Establish.AcceptWaits` and `Establish.AcceptOutcome` |
| Establish.AcceptedEnding | cpp/src/Ice/Network.cpp:1227-1229 | configuring an accepted descriptor ends as accept promises: the configured descriptor, or a SocketException with it closed |
| Network.Os.AwaitConnection | cpp/src/Ice/Network.cpp:1168-1225 | the accept loop leaves either the accept run's failure or a valid descriptor whose configuration is all that remains of the run |
| Network.Os.DoAccept | cpp/src/Ice/Network.cpp:1160-1230 | performs exactly the accept run |
| Resolution.LookupCalls | cpp/src/Ice/Network.cpp:1311-1323 | the lookup makes between 1 and retry+1 calls; every call but the last answered EAI_AGAIN; it stops early only on a different answer |
| Resolution.LookupAtMostSix | cpp/src/Ice/Network.cpp:1290-1323 | with retry = 5 the resolver is asked at most six times |
| Network.Os.GetAddrInfo | cpp/src/Ice/Network.cpp:1314-1321 | one resolver call answers the next scripted reply and logs the query |
| Network.Os.LookupLoop | cpp/src/Ice/Network.cpp:1311-1323 | performs the retry loop, logging the same query once per call |
| Resolution.ApplyPort | cpp/src/Ice/Network.cpp:1341-1350 | every result gets the requested port |
| Resolution.ContainsAppend | cpp/src/Ice/Network.cpp:1352-1360 | the found-loop finds a match in an extended list iff it matched before or matches the new entry |
| Resolution.DedupCovers | cpp/src/Ice/Network.cpp:1337-1365 | every input is matched by some output and every output matches some input |
| Resolution.DedupIsFirsts | cpp/src/Ice/Network.cpp:1337-1365 | the output is exactly the inputs not matching an earlier input, in first-seen order |
| Resolution.DedupDistinct | cpp/src/Ice/Network.cpp:1337-1365 | no two outputs compare equal |
| Resolution.DedupFromInput | cpp/src/Ice/Network.cpp:1337-1365 | outputs are inputs, never more of them, and empty exactly when the input is |
| Resolution.Dedup | cpp/src/Ice/Network.cpp:1337-1365 | the de-duplicating loop as a function; its properties are `Resolution.DedupCovers`, `Resolution.DedupIsFirsts`, `Resolution.DedupDistinct` and `Resolution.DedupFromInput` |
| Resolution.PortedDedup | cpp/src/Ice/Network.cpp:1337-1365 | the result carries the port everywhere, in first-seen order, without duplicates, covers every result, and is empty iff there were no results |
| Network.Os.AddUnique | cpp/src/Ice/Network.cpp:1337-1365 | the loop computes the ported, de-duplicated list |
| Resolution.AddressesOutcome | cpp/src/Ice/Network.cpp:1245-1377 | at most six resolver calls; an empty list exactly for a non-blocking EAI_NONAME; a DNSException with the code and host when the lookup fails or yields nothing; otherwise the de-duplicated, ported results |
| Network.Os.GetAddresses | cpp/src/Ice/Network.cpp:1245-1377 | performs exactly that resolution, logging one query per resolver call |
| Resolution.AddressImplOutcome | cpp/src/Ice/Network.cpp:259-360 | at most six resolver calls; on success the first result with the port applied, keeping its family and address (and, for IPv6, flow information and scope id); otherwise a DNSException with the code and host |
| Network.Os.GetAddressImpl | cpp/src/Ice/Network.cpp:259-360 | performs exactly that resolution |
| Network.Os.GetAddress | cpp/src/Ice/Network.cpp:1239-1242 | the client lookup |
| Network.Os.GetAddressForServer | cpp/src/Ice/Network.cpp:1233-1236 | the server lookup, with the passive hint |
| Resolution.IsWildcardOutcome | cpp/src/Ice/Network.cpp:363-390 | a host is a wildcard exactly when it resolves and its first address is the any-address; a failed lookup is not an error but "no" |
| Network.Os.IsWildcard | cpp/src/Ice/Network.cpp:363-390 | performs exactly that test |
| Resolution.LocalFilterMembers | cpp/src/Ice/Network.cpp:131-168 | the local addresses are exactly the addresses of non-loopback interfaces whose family is enabled and that are not the any-address |
| Resolution.LocalFilter | cpp/src/Ice/Network.cpp:131-168 | the interface filter; its properties are `Resolution.LocalFilterMembers` |
| Network.Os.GetLocalAddresses | cpp/src/Ice/Network.cpp:131-168 | performs exactly the `getifaddrs` run: the filtered list, or a SocketException on failure |
| Resolution.PublishedMembers | cpp/src/Ice/Network.cpp:1898-1909 | the published hosts are exactly the printed local addresses that are not IPv6 link-local |
| Resolution.Published | cpp/src/Ice/Network.cpp:1898-1909 | the hosts printed from the local addresses; its properties are `Resolution.PublishedMembers` |
| Resolution.Fallback | cpp/src/Ice/Network.cpp:1911-1921 | the loopback hosts used when nothing else is published; its property is `Resolution.ExpandedHostsNonEmpty` |
| Resolution.ExpandedHostsNonEmpty | cpp/src/Ice/Network.cpp:1911-1921 | an expansion never yields an empty host list, thanks to the loopback fallback |
| Resolution.ExpandOutcome | cpp/src/Ice/Network.cpp:1892-1924 | a named non-wildcard host expands to nothing; an empty host skips the wildcard lookup; an expansion publishes the local addresses, or the loopback hosts when none is left |
| Resolution.ExpandSpec | cpp/src/Ice/Network.cpp:1892-1924 | `getHostsForEndpointExpand`; its properties are `Resolution.ExpandOutcome` and `Resolution.ExpandedHostsNonEmpty` |
| Network.Os.PublishHosts | cpp/src/Ice/Network.cpp:1898-1921 | the loop computes the published hosts with the fallback |
| Network.Os.GetHostsForEndpointExpand | cpp/src/Ice/Network.cpp:1892-1924 | performs exactly the expansion run |

## Left out

- Windows and other non-Linux branches are not modelled: `WSA*` codes, `select`, `ioctlsocket`, the `SIOCGIFCONF` interface listing, EINVAL as "not connected" on BSD, and the Windows pipe emulation.
- Interface listing is left to the environment. The `getifaddrs` list is an input, `Kernel.Env.interfaces`, of (loopback flag, address) pairs; an address may be missing or of another family.
- Host printing is left to the environment. `inetAddrToString` and `getnameinfo` are the input `Kernel.Env.hostOf`; `errorToString` is not modelled.
- `getsockname` and `getpeername` answers come from `Kernel.Env.localOf` / `peerOf`. The reply script only decides whether these calls fail.
- Timeouts are not modelled. The time a `poll` waits is not modelled; only its result (ready, expired, error) is.
- `setMcastGroup`, `setMcastInterface`, `shutdownSocketWrite`, `shutdownSocketReadWrite`, `recvTruncated` and the UDP send/receive helpers are outside this model.
- Failures of `close` other than EBADF are not modelled. `close` of an open descriptor is assumed to succeed.
- createPipe: the pipe's descriptor numbers are taken as the reply and the reply plus one.
- An exhausted reply script answers EIO, and an exhausted resolver script answers EAI_FAIL. These stand for "the kernel failed".
- GetAddressImpl: the case where `getaddrinfo` returns 0 with a null list is modelled as a DNSException with code 0.
- GetBufferSize: the `getsockopt` length check is not modelled.
- CreateSocket: the `family` argument is passed to `socket` only, so the model ignores it.
- GetAddressImpl: at cpp/src/Ice/Network.cpp:343-351 the family test is inverted: an IPv4 result has its port stored through the IPv6 view and vice versa. The model writes the port in the right place. This does not change the outcome, because both structures keep the port at the same offset.
- IsWildcard: the source also checks that the address family is nonzero. Every modelled address has a family, so the model omits that check.
- Ports are compared in network byte order, exactly as stored, and are never converted to a numeric order (see `Address.StoredPortOrderIsNotNumeric`).
- TcpBufSizeWarnings: states only that at most two warnings are logged. The per-buffer "warns iff granted < requested" is stated in `Configure.BufSizeStepOutcome`.
- Network.Os.DoConnect: follows the corrected finish-connect, which never closes the socket. The as-written composition is kept as a specification only (`Establish.ConnectWith` with `intended == false`).
- Network.Os.DoFinishConnect: performs the corrected behaviour (`Establish.FinishConnectIntendedSpec`, built on `Establish.QuietSelfCheckSpec`), in which the address queries raise without closing. The as-written run is `Establish.FinishConnectSpec`.
- AddressesSpec: when `getaddrinfo` succeeds with no usable result, the model raises DNSException with code 0 and the host. At cpp/src/Ice/Network.cpp:1370-1375 the exception's error field is never assigned, so it keeps its default value, which the model takes to be 0.

## Findings

| source | as written | input that shows it | evidently intended | confidence | as-written member | corrected member |
|---|---|---|---|---|---|---|
| cpp/src/Ice/Network.cpp:991-999 | `doFinishConnect` calls `fdToLocalAddress` (lines 1147-1148), which closes the socket when `getsockname` fails (lines 1809-1811). `doConnect`'s handler then closes the same descriptor a second time, and by then the descriptor number may already be in use by another thread's socket | Linux, timeout -1, kernel replies: `connect` fails with EINPROGRESS, `poll` answers 1, SO_ERROR is 0, `getsockname` fails with ENOBUFS | `doFinishConnect` leaves closing to its caller (its own note at lines 1045-1048), so a failed asynchronous connect closes the socket once | not executed | Establish.ConnectClosesTwice | Establish.ConnectIntendedClosesOnce |

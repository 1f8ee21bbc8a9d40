/** Error codes of the POSIX (Linux, glibc) platform and the predicates the
    socket layer uses to classify them, together with the exception kinds the
    layer raises. */
module SocketErrors {

  // errno values of Linux
  const EIO := 5
  const EINTR := 4
  const EBADF := 9
  const EAGAIN := 11
  const EWOULDBLOCK := EAGAIN
  const EINVAL := 22
  const EPIPE := 32
  const EPROTO := 71
  const ENETUNREACH := 101
  const ECONNABORTED := 103
  const ECONNRESET := 104
  const ENOBUFS := 105
  const ENOTCONN := 107
  const ESHUTDOWN := 108
  const ETIMEDOUT := 110
  const ECONNREFUSED := 111
  const EHOSTUNREACH := 113
  const EINPROGRESS := 115

  // getaddrinfo() codes of glibc
  const EAI_NONAME := -2
  const EAI_AGAIN := -3
  const EAI_FAIL := -4

  /** The exceptions the socket layer raises; `error` is the captured code. */
  datatype NetError =
    | SocketException(error: int)
    | ConnectionRefusedException(error: int)
    | ConnectFailedException(error: int)
    | ConnectTimeoutException
    | TimeoutException
    | DnsException(error: int, host: string)
    | SyscallException(error: int)

  /** A system call was interrupted and should be repeated (EPROTO is defined on Linux). */
  predicate Interrupted(e: int) { e == EINTR || e == EPROTO }

  /** accept() also repeats when the pending connection went away before it was accepted. */
  predicate AcceptInterrupted(e: int) {
    Interrupted(e) || e == ECONNABORTED || e == ECONNRESET || e == ETIMEDOUT
  }

  predicate NoBuffers(e: int) { e == ENOBUFS }

  predicate WouldBlock(e: int) { e == EAGAIN || e == EWOULDBLOCK }

  predicate ConnectFailed(e: int) {
    e == ECONNREFUSED || e == ETIMEDOUT || e == ENETUNREACH || e == EHOSTUNREACH
    || e == ECONNRESET || e == ESHUTDOWN || e == ECONNABORTED
  }

  predicate ConnectionRefused(e: int) { e == ECONNREFUSED }

  predicate ConnectInProgress(e: int) { e == EINPROGRESS }

  predicate ConnectionLost(e: int) {
    e == ECONNRESET || e == ENOTCONN || e == ESHUTDOWN || e == ECONNABORTED || e == EPIPE
  }

  /** On Linux only ENOTCONN means "not connected" (EINVAL counts only on BSD systems). */
  predicate NotConnected(e: int) { e == ENOTCONN }

  /** The exception a failed connection attempt raises: refused before failed
      before the generic socket exception, each carrying the code. */
  function ClassifyConnect(e: int): (x: NetError)
    ensures x.SocketException? || x.ConnectionRefusedException? || x.ConnectFailedException?
    ensures x.error == e
    ensures x.ConnectionRefusedException? <==> ConnectionRefused(e)
    ensures x.ConnectFailedException? <==> ConnectFailed(e) && !ConnectionRefused(e)
    ensures x.SocketException? <==> !ConnectFailed(e)
  {
    if ConnectionRefused(e) then ConnectionRefusedException(e)
    else if ConnectFailed(e) then ConnectFailedException(e)
    else SocketException(e)
  }

  /** Every refused connection is also a failed connection, so the order of the
      two tests in the classification decides the more precise kind. */
  lemma RefusedIsFailed(e: int)
    ensures ConnectionRefused(e) ==> ConnectFailed(e)
  {
  }

  /** accept() retries at least whatever any other call retries. */
  lemma InterruptedIsAcceptInterrupted(e: int)
    ensures Interrupted(e) ==> AcceptInterrupted(e)
  {
  }

  /** A socket that is not connected counts as a lost connection; a lost
      connection never asks for a retry. */
  lemma NotConnectedIsLost(e: int)
    ensures NotConnected(e) ==> ConnectionLost(e)
    ensures ConnectionLost(e) ==> !Interrupted(e) && !WouldBlock(e)
  {
  }
}

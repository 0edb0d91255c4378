/**
 * The Socket abstraction: one owned descriptor, the local and peer addresses
 * once known, and the two lifecycle flags. Every native primitive is an
 * oracle: what it returns is a parameter of the method that calls it, and the
 * call itself, with the arguments the socket passes, is appended to the host's
 * trace together with the log lines the method writes.
 */
module Sockets {
  import opened NetTypes
  import opened IOBuffers
  import opened Multiplexer

  /** `O_NONBLOCK` in the file-status flags (Linux value; any single bit will do). */
  const O_NONBLOCK: bv32 := 0x800

  /** The bits of the C `int` -1, which `fcntl(F_GETFL)` returns on failure. */
  const MINUS_ONE: bv32 := 0xFFFF_FFFF

  /** The file-status flags written back after reading `flags`. */
  function NonBlockingFlags(flags: bv32, nonBlocking: bool): (r: bv32)
    ensures r & O_NONBLOCK == if nonBlocking then O_NONBLOCK else 0
    ensures r & !O_NONBLOCK == flags & !O_NONBLOCK
  {
    if nonBlocking then flags | O_NONBLOCK else flags & !O_NONBLOCK
  }

  /** Switching to the mode the flags already have writes them back unchanged. */
  lemma NonBlockingNoChange(flags: bv32, nonBlocking: bool)
    requires (flags & O_NONBLOCK != 0) == nonBlocking
    ensures NonBlockingFlags(flags, nonBlocking) == flags
  {
  }

  /**
   * A transfer result that means "not now" rather than failure: the POSIX
   * and NDS paths test errno against EWOULDBLOCK only, the GEKKO path tests
   * the negative return value against both EWOULDBLOCK and EAGAIN.
   */
  predicate WouldBlock(backend: Backend, r: CallResult)
  {
    if backend == Gekko then r.rc == -EWOULDBLOCK || r.rc == -EAGAIN else r.errno == EWOULDBLOCK
  }

  /** A transfer result that is logged as an error. */
  predicate TransferFailed(backend: Backend, r: CallResult)
  {
    r.rc < 0 && !WouldBlock(backend, r)
  }

  /** The lines written when a socket is destroyed, before its descriptor is closed. */
  function Teardown(listening: bool, connected: bool, sockName: SockAddr, peerName: SockAddr): seq<Event>
  {
    (if listening then [Info(StopListening(sockName))] else [])
    + (if connected then [Info(ClosingConnection(peerName))] else [])
  }

  /** The family switch of bind reaches a native bind call. */
  predicate BindSupported(ipv6: bool, family: Family)
  {
    family == Inet || (family == Inet6 && ipv6)
  }

  /** The events of bind's family switch. */
  function BindEvents(backend: Backend, ipv6: bool, fd: int, addr: SockAddr, r: CallResult): seq<Event>
  {
    if addr.family == Inet then
      CallEvents(BindCall(fd, addr), r.rc != 0, Primitive.Bind, ErrorCode(backend, r))
    else if addr.family == Inet6 && ipv6 then
      CallEvents(BindCall(fd, addr), r.rc != 0, Primitive.Bind, r.errno)
    else
      [Error(Primitive.Bind, EINVAL)]
  }

  /** The events of reading the bound name back after a request for an ephemeral port. */
  function NameEvents(backend: Backend, fd: int, addr: SockAddr, r: CallResult): seq<Event>
  {
    if addr.port == 0 then CallEvents(GetSockNameCall(fd), r.rc != 0, GetSockName, ErrorCode(backend, r))
    else []
  }

  /** The entries handed to the wait: each socket's descriptor and requested mask, no result yet. */
  function Requests(info: seq<PollInfo>): seq<PollFd>
  {
    seq(|info|, i requires 0 <= i < |info| => PollFd(info[i].socket.fd, info[i].events, 0))
  }

  /** One entry of a poll request: the socket (not owned), requested mask, result mask. */
  datatype PollInfo = PollInfo(socket: Socket, events: bv16, revents: bv16)

  class Socket {
    const fd: int
    var sockName: SockAddr
    var peerName: SockAddr
    var listening: bool
    var connected: bool
    /** The descriptor has been closed: the object is gone. */
    ghost var closed: bool

    /** A fresh socket around `fd`: no address known yet, neither listening nor connected. */
    constructor (fd: int)
      ensures this.fd == fd && sockName == Unset && peerName == Unset
      ensures !listening && !connected && !closed
    {
      this.fd := fd;
      sockName, peerName := Unset, Unset;
      listening, connected := false, false;
      closed := false;
    }

    /** An accepted connection: both addresses known, connected. */
    constructor Connection(fd: int, sockName: SockAddr, peerName: SockAddr)
      ensures this.fd == fd && this.sockName == sockName && this.peerName == peerName
      ensures !listening && connected && !closed
    {
      this.fd := fd;
      this.sockName, this.peerName := sockName, peerName;
      listening, connected := false, true;
      closed := false;
    }

    /**
     * The destructor: announces the end of listening and of the connection
     * as the flags say, then closes the descriptor, exactly once.
     */
    method Destroy(host: Host, r: CallResult)
      requires !closed
      modifies this`closed, host
      ensures closed
      ensures host.errno == r.errno
      ensures host.trace == old(host.trace) + Teardown(listening, connected, sockName, peerName)
        + CallEvents(CloseCall(fd), r.rc != 0, Close, ErrorCode(host.backend, r))
    {
      if listening {
        host.Tell(StopListening(sockName));
      }
      if connected {
        host.Tell(ClosingConnection(peerName));
      }
      host.Invoke(CloseCall(fd), r.errno);
      if r.rc != 0 {
        host.Fail(Close, ErrorCode(host.backend, r));
      }
      closed := true;
    }

    /** Creates a stream socket; null when the stack refuses. */
    static method Create(host: Host, r: CallResult) returns (s: Socket?)
      modifies host
      ensures host.errno == r.errno
      ensures s == null <==> r.rc < 0
      ensures s != null ==> fresh(s) && s.fd == r.rc && s.sockName == Unset && s.peerName == Unset
      ensures s != null ==> !s.listening && !s.connected && !s.closed
      ensures host.trace == old(host.trace) + CallEvents(SocketCall, r.rc < 0, NewSocket, ErrorCode(host.backend, r))
    {
      host.Invoke(SocketCall, r.errno);
      if r.rc < 0 {
        host.Fail(NewSocket, ErrorCode(host.backend, r));
        return null;
      }
      s := new Socket(r.rc);
    }

    /**
     * Accepts a connection, `r` being what accept returned and `addr` the
     * peer address it filled in. The new socket carries this listener's local
     * name; the listener itself is not changed.
     */
    method Accept(host: Host, r: CallResult, addr: SockAddr) returns (s: Socket?)
      requires !closed
      modifies host
      ensures host.errno == r.errno
      ensures s == null <==> r.rc < 0
      ensures s != null ==> fresh(s) && s.fd == r.rc && s.sockName == sockName && s.peerName == addr
      ensures s != null ==> s.connected && !s.listening && !s.closed
      ensures host.trace == old(host.trace) + [Invoked(AcceptCall(fd))]
        + if r.rc < 0 then [Error(Primitive.Accept, ErrorCode(host.backend, r))] else [Info(Accepted(addr))]
    {
      host.Invoke(AcceptCall(fd), r.errno);
      if r.rc < 0 {
        host.Fail(Primitive.Accept, ErrorCode(host.backend, r));
        return null;
      }
      host.Tell(Accepted(addr));
      s := new Socket.Connection(r.rc, sockName, addr);
    }

    /** Whether the read position is at the out-of-band mark; unsupported on the embedded stacks. */
    method AtMark(host: Host, r: CallResult) returns (rc: int)
      requires !closed
      modifies host
      ensures host.backend != Posix ==> rc == -1 && host.errno == ENOSYS && host.trace == old(host.trace)
      ensures host.backend == Posix ==> rc == r.rc && host.errno == r.errno
      ensures host.backend == Posix ==>
        host.trace == old(host.trace) + CallEvents(SockAtMarkCall(fd), r.rc < 0, SockAtMark, r.errno)
    {
      if host.backend != Posix {
        host.errno := ENOSYS;
        return -1;
      }
      host.Invoke(SockAtMarkCall(fd), r.errno);
      if r.rc < 0 {
        host.Fail(SockAtMark, host.errno);
      }
      rc := r.rc;
    }

    /**
     * Binds to `addr`. `bindR` is what the native bind returned; `nameR` is
     * what getsockname returned and `name` what its output buffer, the local
     * name itself, holds afterwards, whether or not the call failed. An
     * unsupported family is logged as EINVAL and then treated like a
     * successful bind.
     */
    method Bind(host: Host, addr: SockAddr, bindR: CallResult, nameR: CallResult, name: SockAddr)
      returns (ok: bool)
      requires !closed
      modifies this`sockName, host
      ensures ok <==> !(BindSupported(host.ipv6, addr.family) && bindR.rc != 0)
      ensures !ok ==> sockName == old(sockName)
      ensures ok ==> sockName == if addr.port != 0 then addr else name
      ensures host.trace == old(host.trace) + BindEvents(host.backend, host.ipv6, fd, addr, bindR)
        + if ok then NameEvents(host.backend, fd, addr, nameR) else []
      ensures host.errno == if ok && addr.port == 0 then nameR.errno
        else if BindSupported(host.ipv6, addr.family) then bindR.errno else EINVAL
    {
      if addr.family == Inet {
        host.Invoke(BindCall(fd, addr), bindR.errno);
        if bindR.rc != 0 {
          host.Fail(Primitive.Bind, ErrorCode(host.backend, bindR));
          return false;
        }
      } else if addr.family == Inet6 && host.ipv6 {
        host.Invoke(BindCall(fd, addr), bindR.errno);
        if bindR.rc != 0 {
          host.Fail(Primitive.Bind, host.errno);
          return false;
        }
      } else {
        host.errno := EINVAL;
        host.Fail(Primitive.Bind, host.errno);
      }

      if addr.port == 0 {
        // ephemeral port requested: read the bound name back into the local name
        host.Invoke(GetSockNameCall(fd), nameR.errno);
        sockName := name;
        if nameR.rc != 0 {
          host.Fail(GetSockName, ErrorCode(host.backend, nameR));
        }
      } else {
        sockName := addr;
      }
      ok := true;
    }

    /**
     * Connects to `addr`. Success and "in progress" both record the peer and
     * set the connected flag, but only success returns true; any other
     * failure changes nothing. Every backend decides "in progress" from
     * errno, the GEKKO one included.
     */
    method Connect(host: Host, addr: SockAddr, r: CallResult) returns (ok: bool)
      requires !closed
      modifies this`peerName, this`connected, host
      ensures ok <==> r.rc == 0
      ensures r.rc == 0 || r.errno == EINPROGRESS ==> peerName == addr && connected
      ensures r.rc != 0 && r.errno != EINPROGRESS ==> peerName == old(peerName) && connected == old(connected)
      ensures host.errno == r.errno
      ensures host.trace == old(host.trace) + [Invoked(ConnectCall(fd, addr))]
        + if r.rc == 0 then [Info(ConnectedTo(addr))]
          else if r.errno == EINPROGRESS then [Info(Connecting(addr))]
          else [Error(Primitive.Connect, ErrorCode(host.backend, r))]
    {
      host.Invoke(ConnectCall(fd, addr), r.errno);
      if r.rc != 0 {
        if host.errno != EINPROGRESS {
          host.Fail(Primitive.Connect, ErrorCode(host.backend, r));
        } else {
          peerName := addr;
          connected := true;
          host.Tell(Connecting(addr));
        }
        return false;
      }
      peerName := addr;
      connected := true;
      host.Tell(ConnectedTo(addr));
      ok := true;
    }

    /** Starts listening; the flag is set on success and never cleared. */
    method Listen(host: Host, backlog: int, r: CallResult) returns (ok: bool)
      requires !closed
      modifies this`listening, host
      ensures ok <==> r.rc == 0
      ensures listening == (old(listening) || ok)
      ensures host.errno == r.errno
      ensures host.trace == old(host.trace)
        + CallEvents(ListenCall(fd, backlog), r.rc != 0, Primitive.Listen, ErrorCode(host.backend, r))
    {
      host.Invoke(ListenCall(fd, backlog), r.errno);
      if r.rc != 0 {
        host.Fail(Primitive.Listen, ErrorCode(host.backend, r));
        return false;
      }
      listening := true;
      ok := true;
    }

    /** Shuts down one or both directions. */
    method Shutdown(host: Host, how: int, r: CallResult) returns (ok: bool)
      requires !closed
      modifies host
      ensures ok <==> r.rc == 0
      ensures host.errno == r.errno
      ensures host.trace == old(host.trace)
        + CallEvents(ShutdownCall(fd, how), r.rc != 0, Primitive.Shutdown, ErrorCode(host.backend, r))
    {
      host.Invoke(ShutdownCall(fd, how), r.errno);
      if r.rc != 0 {
        host.Fail(Primitive.Shutdown, ErrorCode(host.backend, r));
        return false;
      }
      ok := true;
    }

    /**
     * Sets linger-on-close. The embedded stacks have no SO_LINGER: errno
     * becomes ENOSYS and the bool function returns -1, that is, true.
     */
    method SetLinger(host: Host, enable: bool, seconds: int, r: CallResult) returns (ok: bool)
      requires !closed
      modifies host
      ensures host.backend != Posix ==> ok && host.errno == ENOSYS && host.trace == old(host.trace)
      ensures host.backend == Posix ==> (ok <==> r.rc == 0) && host.errno == r.errno
      ensures host.backend == Posix ==> (host.trace == old(host.trace)
        + CallEvents(SetSockOptCall(fd, Linger(enable, CInt(seconds))), r.rc != 0, SetSockOpt, r.errno))
    {
      if host.backend != Posix {
        host.errno := ENOSYS;
        // `return -1;` from a function returning bool
        return -1 != 0;
      }
      host.Invoke(SetSockOptCall(fd, Linger(enable, CInt(seconds))), r.errno);
      if r.rc != 0 {
        host.Fail(SetSockOpt, host.errno);
        return false;
      }
      ok := true;
    }

    /**
     * Switches non-blocking mode. The embedded stacks use the FIONBIO ioctl
     * (`ioctlR` is its result). The POSIX path reads the file-status flags
     * (`flags` is what F_GETFL returned, `getErrno` errno after it), and on
     * success writes them back with only O_NONBLOCK changed (`setR` is what
     * F_SETFL returned).
     */
    method SetNonBlocking(host: Host, nonBlocking: bool, ioctlR: CallResult,
                          flags: bv32, getErrno: int, setR: CallResult) returns (ok: bool)
      requires !closed
      modifies host
      ensures host.backend != Posix ==> (ok <==> ioctlR.rc == 0) && host.errno == ioctlR.errno
      ensures host.backend != Posix ==> (host.trace == old(host.trace)
        + CallEvents(NonBlockingIoctlCall(fd, nonBlocking), ioctlR.rc != 0, Ioctl, ErrorCode(host.backend, ioctlR)))
      ensures host.backend == Posix ==> (ok <==> flags != MINUS_ONE && setR.rc == 0)
      ensures host.backend == Posix ==> host.errno == if flags == MINUS_ONE then getErrno else setR.errno
      ensures host.backend == Posix ==> (host.trace == old(host.trace) + [Invoked(GetFlagsCall(fd))]
        + if flags == MINUS_ONE then [Error(Fcntl, getErrno)]
          else CallEvents(SetFlagsCall(fd, NonBlockingFlags(flags, nonBlocking)), setR.rc != 0, Fcntl, setR.errno))
    {
      if host.backend != Posix {
        host.Invoke(NonBlockingIoctlCall(fd, nonBlocking), ioctlR.errno);
        if ioctlR.rc != 0 {
          host.Fail(Ioctl, ErrorCode(host.backend, ioctlR));
          return false;
        }
        return true;
      }
      host.Invoke(GetFlagsCall(fd), getErrno);
      if flags == MINUS_ONE {
        host.Fail(Fcntl, host.errno);
        return false;
      }
      var newFlags := NonBlockingFlags(flags, nonBlocking);
      host.Invoke(SetFlagsCall(fd, newFlags), setR.errno);
      if setR.rc != 0 {
        host.Fail(Fcntl, host.errno);
        return false;
      }
      ok := true;
    }

    /** Sets SO_REUSEADDR. */
    method SetReuseAddress(host: Host, reuse: bool, r: CallResult) returns (ok: bool)
      requires !closed
      modifies host
      ensures ok <==> r.rc == 0
      ensures host.errno == r.errno
      ensures host.trace == old(host.trace)
        + CallEvents(SetSockOptCall(fd, ReuseAddr(reuse)), r.rc != 0, SetSockOpt, ErrorCode(host.backend, r))
    {
      host.Invoke(SetSockOptCall(fd, ReuseAddr(reuse)), r.errno);
      if r.rc != 0 {
        host.Fail(SetSockOpt, ErrorCode(host.backend, r));
        return false;
      }
      ok := true;
    }

    /** Sets SO_RCVBUF; the size is passed as a C `int`. */
    method SetRecvBufferSize(host: Host, size: nat, r: CallResult) returns (ok: bool)
      requires !closed
      modifies host
      ensures ok <==> r.rc == 0
      ensures host.errno == r.errno
      ensures host.trace == old(host.trace)
        + CallEvents(SetSockOptCall(fd, RecvBuf(CInt(size))), r.rc != 0, SetSockOpt, ErrorCode(host.backend, r))
    {
      host.Invoke(SetSockOptCall(fd, RecvBuf(CInt(size))), r.errno);
      if r.rc != 0 {
        host.Fail(SetSockOpt, ErrorCode(host.backend, r));
        return false;
      }
      ok := true;
    }

    /** Sets SO_SNDBUF; the size is passed as a C `int`. */
    method SetSendBufferSize(host: Host, size: nat, r: CallResult) returns (ok: bool)
      requires !closed
      modifies host
      ensures ok <==> r.rc == 0
      ensures host.errno == r.errno
      ensures host.trace == old(host.trace)
        + CallEvents(SetSockOptCall(fd, SendBuf(CInt(size))), r.rc != 0, SetSockOpt, ErrorCode(host.backend, r))
    {
      host.Invoke(SetSockOptCall(fd, SendBuf(CInt(size))), r.errno);
      if r.rc != 0 {
        host.Fail(SetSockOpt, ErrorCode(host.backend, r));
        return false;
      }
      ok := true;
    }

    /**
     * Receives up to `size` bytes and returns what the stack returned. The
     * GEKKO stack is never asked for out-of-band data.
     */
    method Read(host: Host, size: nat, oob: bool, r: CallResult) returns (n: int)
      requires !closed
      requires size > 0
      modifies host
      ensures n == r.rc && host.errno == r.errno
      ensures host.trace == old(host.trace) + CallEvents(RecvCall(fd, size, oob && host.backend != Gekko),
        TransferFailed(host.backend, r), Recv, ErrorCode(host.backend, r))
    {
      host.Invoke(RecvCall(fd, size, if host.backend == Gekko then false else oob), r.errno);
      if r.rc < 0 && !WouldBlock(host.backend, r) {
        host.Fail(Recv, ErrorCode(host.backend, r));
      }
      n := r.rc;
    }

    /** Receives into the buffer's free region; the bytes received join its used region. */
    method ReadBuffer(host: Host, buffer: IOBuffer, oob: bool, r: CallResult) returns (n: int)
      requires !closed
      requires buffer.freeSize > 0
      requires r.rc <= buffer.freeSize
      modifies host, buffer
      ensures n == r.rc && host.errno == r.errno
      ensures n > 0 ==> buffer.freeSize == old(buffer.freeSize) - n && buffer.usedSize == old(buffer.usedSize) + n
      ensures n <= 0 ==> buffer.freeSize == old(buffer.freeSize) && buffer.usedSize == old(buffer.usedSize)
      ensures host.trace == old(host.trace) + CallEvents(RecvCall(fd, old(buffer.freeSize), oob && host.backend != Gekko),
        TransferFailed(host.backend, r), Recv, ErrorCode(host.backend, r))
    {
      n := Read(host, buffer.freeSize, oob, r);
      if n > 0 {
        buffer.MarkUsed(n);
      }
    }

    /** Sends up to `size` bytes and returns what the stack returned. */
    method Write(host: Host, size: nat, r: CallResult) returns (n: int)
      requires !closed
      requires size > 0
      modifies host
      ensures n == r.rc && host.errno == r.errno
      ensures host.trace == old(host.trace)
        + CallEvents(SendCall(fd, size), TransferFailed(host.backend, r), Send, ErrorCode(host.backend, r))
    {
      host.Invoke(SendCall(fd, size), r.errno);
      if r.rc < 0 && !WouldBlock(host.backend, r) {
        host.Fail(Send, ErrorCode(host.backend, r));
      }
      n := r.rc;
    }

    /** Sends from the buffer's used region; the bytes sent leave it. */
    method WriteBuffer(host: Host, buffer: IOBuffer, r: CallResult) returns (n: int)
      requires !closed
      requires buffer.usedSize > 0
      requires r.rc <= buffer.usedSize
      modifies host, buffer
      ensures n == r.rc && host.errno == r.errno
      ensures n > 0 ==> buffer.usedSize == old(buffer.usedSize) - n && buffer.freeSize == old(buffer.freeSize)
      ensures n <= 0 ==> buffer.freeSize == old(buffer.freeSize) && buffer.usedSize == old(buffer.usedSize)
      ensures host.trace == old(host.trace)
        + CallEvents(SendCall(fd, old(buffer.usedSize)), TransferFailed(host.backend, r), Send, ErrorCode(host.backend, r))
    {
      n := Write(host, buffer.usedSize, r);
      if n > 0 {
        buffer.MarkFree(n);
      }
    }

    /**
     * Waits for readiness of the first `count` entries of `info`. An empty
     * request returns 0 without waiting. Otherwise each entry becomes a
     * `pollfd` with no result yet, the backend's wait runs (`wait` is its
     * answer), and the result masks are copied back only when the wait did
     * not fail.
     */
    static method Poll(host: Host, info: array<PollInfo>, count: nat, timeout: int, wait: Wait)
      returns (rc: int)
      requires count <= info.Length
      requires wait.NativeWait? <==> host.backend == Posix
      requires wait.NativeWait? ==> |wait.revents| == count
      modifies info, host
      ensures count == 0 ==> rc == 0 && host.trace == old(host.trace) && host.errno == old(host.errno)
      ensures count > 0 ==> rc == WaitRc(wait, Requests(old(info[..count]))) && host.errno == WaitErrno(wait)
      ensures count > 0 ==> (host.trace == old(host.trace)
        + [Invoked(WaitCall(wait, Requests(old(info[..count])), CInt(timeout)))]
        + if rc < 0 then [Error(Primitive.Poll, WaitErrno(wait))] else [])
      ensures count == 0 || rc < 0 ==> info[..] == old(info[..])
      ensures count > 0 && rc >= 0 ==> forall i :: 0 <= i < info.Length ==>
        info[i] == if i < count then old(info[i]).(revents := WaitRevents(wait, Requests(old(info[..count])), i))
                   else old(info[i])
    {
      if count == 0 {
        return 0;
      }
      var pfd := ToPollFds(info, count);
      ghost var reqs := pfd[..];
      assert reqs == pfd[..count] == Requests(old(info[..count]));
      match wait {
        case NativeWait(nativeRc, errno, revents) =>
          rc := NativePoll(host, pfd, count, CInt(timeout), nativeRc, errno, revents);
          assert rc >= 0 ==> forall k :: 0 <= k < count ==> pfd[k].revents == WaitRevents(wait, reqs, k);
        case SelectWait(sel) =>
          rc := EmulatedPoll(host, pfd, count, CInt(timeout), sel);
          assert rc >= 0 ==> pfd[..count] == Answer(reqs, sel);
          assert rc >= 0 ==> forall k :: 0 <= k < count ==> pfd[k] == pfd[..count][k];
      }
      assert rc >= 0 ==> forall k :: 0 <= k < count ==> pfd[k].revents == WaitRevents(wait, reqs, k);
      assert host.trace == old(host.trace) + [Invoked(WaitCall(wait, reqs, CInt(timeout)))];
      if rc < 0 {
        host.Fail(Primitive.Poll, host.errno);
        return rc;
      }

      CopyRevents(info, pfd, count);
    }
  
    /** The `pollfd` entries for the first `count` requests: descriptor, requested mask, no result. */
    static method ToPollFds(info: array<PollInfo>, count: nat) returns (pfd: array<PollFd>)
      requires count <= info.Length
      ensures fresh(pfd) && pfd.Length == count && pfd[..] == Requests(info[..count])
    {
      pfd := new PollFd[count];
      var i := 0;
      while i < count
        invariant 0 <= i <= count
        invariant forall k :: 0 <= k < i ==> pfd[k] == PollFd(info[k].socket.fd, info[k].events, 0)
        modifies pfd
      {
        pfd[i] := PollFd(info[i].socket.fd, info[i].events, 0);
        i := i + 1;
      }
    }

    /** Copies the result masks of the first `count` entries back to the requests. */
    static method CopyRevents(info: array<PollInfo>, pfd: array<PollFd>, count: nat)
      requires count <= info.Length && count <= pfd.Length
      modifies info
      ensures forall k :: 0 <= k < info.Length ==>
        info[k] == if k < count then old(info[k]).(revents := pfd[k].revents) else old(info[k])
    {
      var i := 0;
      while i < count
        invariant 0 <= i <= count
        invariant forall k :: 0 <= k < i ==> info[k] == old(info[k]).(revents := pfd[k].revents)
        invariant forall k :: i <= k < info.Length ==> info[k] == old(info[k])
      {
        info[i] := info[i].(revents := pfd[i].revents);
        i := i + 1;
      }
    }
  }
}

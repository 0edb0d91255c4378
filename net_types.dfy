/**
 * Values shared by the socket layer: the build-time backend, the error
 * numbers the layer tests, socket addresses, the poll record and its mask
 * bits, and the host environment that records every native call issued and
 * every log line written.
 */
module NetTypes {

  /** The three native network stacks, chosen at build time. */
  datatype Backend = Posix | Nds | Gekko

  // errno values the layer tests or assigns (Linux numbering; only their
  // distinctness matters to the model)
  const EAGAIN: int := 11
  const EWOULDBLOCK: int := EAGAIN
  const EINVAL: int := 22
  const ENOSYS: int := 38
  const EINPROGRESS: int := 115

  /**
   * What a native primitive reported: its return value and the value errno
   * holds after it returned. The GEKKO stack reports failures as a negative
   * return value instead; its errno is whatever the call left there.
   */
  datatype CallResult = CallResult(rc: int, errno: int)

  /** The error number a failure message is formatted from on each backend. */
  function ErrorCode(backend: Backend, r: CallResult): int
  {
    if backend == Gekko then -r.rc else r.errno
  }

  const INT_MIN: int := -0x8000_0000
  const INT_MAX: int := 0x7FFF_FFFF

  /** Conversion of an integer to a 32-bit C `int` (two's-complement wrap-around). */
  function CInt(n: int): (r: int)
    ensures INT_MIN <= r <= INT_MAX
    ensures (r - n) % 0x1_0000_0000 == 0
    ensures INT_MIN <= n <= INT_MAX ==> r == n
  {
    var m := n % 0x1_0000_0000;
    if m <= INT_MAX then m else m - 0x1_0000_0000
  }

  /** Address families; anything the build does not support falls in the last two. */
  datatype Family = Inet | Inet6 | Unspec | OtherFamily(tag: int)

  /** A socket address: family tag, raw address bytes and port. */
  datatype SockAddr = SockAddr(family: Family, bytes: seq<bv8>, port: nat)

  /** A default-constructed address: zeroed storage. */
  const Unset: SockAddr := SockAddr(Unspec, [], 0)

  /** One `struct pollfd`. */
  datatype PollFd = PollFd(fd: int, events: bv16, revents: bv16)

  // poll event bits: distinct single bits
  const POLLIN: bv16 := 0x0001
  const POLLOUT: bv16 := 0x0004
  const POLLERR: bv16 := 0x0008

  /** One `struct timeval`. */
  datatype Timeval = Timeval(sec: int, usec: int)

  /** The socket options the layer sets, with the values passed to the stack. */
  datatype SockOpt =
    | ReuseAddr(reuse: bool)
    | RecvBuf(size: int)
    | SendBuf(size: int)
    | Linger(onOff: bool, seconds: int)

  /** A native primitive together with the arguments the layer passed to it. */
  datatype Syscall =
    | SocketCall
    | AcceptCall(fd: int)
    | BindCall(fd: int, addr: SockAddr)
    | GetSockNameCall(fd: int)
    | ConnectCall(fd: int, addr: SockAddr)
    | ListenCall(fd: int, backlog: int)
    | ShutdownCall(fd: int, how: int)
    | SetSockOptCall(fd: int, opt: SockOpt)
    | GetFlagsCall(fd: int)
    | SetFlagsCall(fd: int, flags: bv32)
    | NonBlockingIoctlCall(fd: int, enable: bool)
    | RecvCall(fd: int, size: nat, oob: bool)
    | SendCall(fd: int, size: nat)
    | SockAtMarkCall(fd: int)
    | CloseCall(fd: int)
    | PollCall(fds: seq<PollFd>, timeout: int)
    | SelectCall(nfds: nat, readFds: set<int>, writeFds: set<int>, exceptFds: set<int>, tv: Timeval)

  /** The primitive a failure message names. */
  datatype Primitive =
    | NewSocket | Accept | Bind | GetSockName | Connect | Listen | Shutdown | SetSockOpt
    | Fcntl | Ioctl | Recv | Send | SockAtMark | Close | Poll

  /** The informational lines of the socket lifecycle. */
  datatype Note =
    | StopListening(local: SockAddr)
    | ClosingConnection(peer: SockAddr)
    | Accepted(peer: SockAddr)
    | Connecting(peer: SockAddr)
    | ConnectedTo(peer: SockAddr)

  /** One entry of the environment's trace. */
  datatype Event =
    | Invoked(call: Syscall)
    | Info(note: Note)
    | Error(failed: Primitive, code: int)

  /** A native call followed, when it failed, by the error line naming it. */
  function CallEvents(call: Syscall, failed: bool, p: Primitive, code: int): seq<Event>
  {
    [Invoked(call)] + if failed then [Error(p, code)] else []
  }

  /**
   * The environment of the socket layer: the backend it was built for, whether
   * IPv6 was compiled in, the global errno, and the trace of native calls
   * issued and log lines written.
   */
  class Host {
    const backend: Backend
    const ipv6: bool
    var errno: int
    ghost var trace: seq<Event>

    constructor (backend: Backend, ipv6: bool)
      ensures this.backend == backend && this.ipv6 == ipv6
      ensures errno == 0 && trace == []
    {
      this.backend := backend;
      this.ipv6 := ipv6;
      errno := 0;
      trace := [];
    }

    /** Issues a native call whose errno afterwards is `errno'`. */
    method Invoke(call: Syscall, errno': int)
      modifies this
      ensures errno == errno' && trace == old(trace) + [Invoked(call)]
    {
      errno := errno';
      trace := trace + [Invoked(call)];
    }

    /** Writes an error line naming `p` with error number `code`. */
    method Fail(p: Primitive, code: int)
      modifies this
      ensures errno == old(errno) && trace == old(trace) + [Error(p, code)]
    {
      trace := trace + [Error(p, code)];
    }

    /** Writes an informational line. */
    method Tell(note: Note)
      modifies this
      ensures errno == old(errno) && trace == old(trace) + [Info(note)]
    {
      trace := trace + [Info(note)];
    }
  }
}

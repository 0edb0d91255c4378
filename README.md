# ftpd socket layer, modelled in Dafny

This project models the portable socket layer of the ftpd server
(`source/socket.cpp`): the `Socket` class that wraps one native descriptor
for three network stacks (POSIX, NDS and GEKKO), and the `poll` emulation
that the two embedded stacks build on a select-style wait.

The layer's own logic is the decision code around each native call. The calls
themselves are oracles. What a primitive returns (its return value and the
errno it leaves, the sets select hands back, the address accept or getsockname
fills in) is a parameter of the method that calls it. Each call is recorded
with its arguments in a ghost trace held by a `Host` object, and so is every
log line. Contracts can therefore say which primitive was called with which
arguments, whether it was called at all, and what was logged.

- `net_types.dfy` (module `NetTypes`): the backend, errno constants, the
  `CallResult` of a primitive, C `int` conversion, socket addresses, `pollfd`
  and its mask bits, `timeval`, the trace events, and the `Host` environment
  (backend, IPv6 build switch, errno, trace).
- `io_buffer.dfy` (module `IOBuffers`): the buffered-I/O container, reduced to
  the sizes of its free and used regions.
- `multiplexer.dfy` (module `Multiplexer`): the select-based `poll` emulation
  over an `array<PollFd>`, the native `poll` oracle, and the functions that
  specify both.
- `socket.dfy` (module `Sockets`): the `Socket` class with its fields
  `fd`, `sockName`, `peerName`, `listening` and `connected`, all of its
  operations, and the static `Poll`.

The backend is fixed when the program is built. Here it is the `backend`
constant of `Host`, and whether IPv6 is compiled in is the `ipv6` constant.
Every method branches on these exactly where the source has a conditional
compilation block.

Behaviours kept as the code has them:
- `bind` with an unsupported family logs EINVAL, then falls through to the
  port logic and returns true.
- `setLinger` on the embedded stacks sets errno to ENOSYS and returns `-1`
  from a `bool` function, which is true.
- GEKKO `connect` decides "in progress" from errno, not from the negative
  return value. The message still uses the negative return value.
- GEKKO `read` never asks for out-of-band data, whatever `oob` says.
- The emulated `poll` passes the entry count, not the highest descriptor
  plus one, as select's first argument. The trace records that argument.
- A negative poll timeout becomes a negative `timeval` because C division
  truncates toward zero. For example, -1 ms becomes 0 s and -1000 µs. The
  emulation does not treat it as an infinite wait.

In four places a caller would expect something other than what the code
does. The model follows the code:
- A caller would expect `bind` to fail for an address family the build does
  not support. The code logs EINVAL and returns true.
- A caller would expect `setLinger` to report failure where SO_LINGER does
  not exist. On the embedded stacks the code returns true.
- A caller would expect an out-of-band read to fail where the stack cannot
  do one. On GEKKO the code calls `recv` without the flag.
- A caller would expect `listening` and `connected` never to hold together.
  The code does not enforce this. `listen` never looks at `connected`, and
  `connect` never looks at `listening`. The model proves no such invariant.

## Model

| member | source | states |
|---|---|---|
| `NetTypes.CInt` | source/socket.cpp:336-338 | converting a size to a C `int` gives a value in the 32-bit range that is congruent to the input mod 2^32, and the same value when the input already fits |
| `Multiplexer.SplitTimeout` | source/socket.cpp:515-517 | `tv_sec*1000000 + tv_usec == timeout*1000` for every timeout; for `timeout >= 0`, `0 <= tv_usec < 1000000` and `tv_sec == timeout/1000`; for a negative timeout both parts are non-positive (C truncation) |
| `Multiplexer.RequestedMembers` | source/socket.cpp:507-513 | a descriptor is in the read (write) set exactly when some entry with that descriptor requests `POLLIN` (`POLLOUT`) |
| `Multiplexer.RequestSets` | source/socket.cpp:503-513 | the read and write sets built by the loop are exactly the descriptors of the entries that request `POLLIN` and `POLLOUT` |
| `Multiplexer.Revents` | source/socket.cpp:529-548 | an entry's result mask has `POLLIN`, `POLLOUT` or `POLLERR` exactly when its descriptor is in the returned read, write or except set; no other bit is set; the mask is non-zero exactly when the descriptor was signalled |
| `Multiplexer.ReadyCountBound` | source/socket.cpp:526-554 | the count of entries with a non-zero result mask is at most the number of entries; it equals that number iff every mask is non-zero, and is 0 iff every mask is 0 |
| `Multiplexer.MarkReady` | source/socket.cpp:526-554 | each of the first `nfds` entries gets its result mask rebuilt from the returned sets (reset to 0 first); the entries after them are unchanged; the count returned equals the number of non-zero masks, so `0 <= count <= nfds` |
| `Multiplexer.EmulatedPoll` | source/socket.cpp:497-555 | the wait is called once, with `nfds`, the requested read and write sets, an empty except set and the split timeout; a negative rc from the wait is returned unchanged and no entry is modified; otherwise the masks are rebuilt and the number of signalled entries is returned |
| `Multiplexer.NativePoll` | source/socket.cpp:483 | the native poll is called with the entries and the timeout and its rc is returned; it fills in the result masks only when it succeeds |
| `Multiplexer.EmulatedWaitBound` | source/socket.cpp:523-554 | when the wait succeeds the emulation returns a value between 0 and the number of entries, and returns 0 exactly when no entry's descriptor is in any returned set |
| `Multiplexer.OneReadableOneIdle` | source/socket.cpp:497-555 | two entries ask to read and only the first is readable, with a zero timeout: the wait gets the read set holding both descriptors and a zero `timeval`; one entry is ready, with only `POLLIN` set |
| `Sockets.NonBlockingFlags` | source/socket.cpp:300-303 | the flags written back have `O_NONBLOCK` set when non-blocking is requested and clear otherwise, and every other bit is as read |
| `Sockets.NonBlockingNoChange` | source/socket.cpp:300-303 | asking for the mode the flags already have writes back the flags unchanged |
| `Sockets.Socket.constructor` | source/socket.cpp:60-62 | a socket made from a descriptor has unset addresses and is neither listening nor connected |
| `Sockets.Socket.Connection` | source/socket.cpp:64-71 | a socket made for an accepted connection carries both addresses, is connected and is not listening |
| `Sockets.Socket.Destroy` | source/socket.cpp:39-58 | logs "stop listening" iff `listening` and "closing connection" iff `connected`, in that order, then closes the descriptor once, logging a failed close with the backend's error code; a socket can be destroyed only once |
| `Sockets.Socket.Create` | source/socket.cpp:447-466 | calls the socket primitive; a negative descriptor logs the error and returns null; otherwise it returns a fresh socket on that descriptor, with nothing known and no flag set |
| `Sockets.Socket.Accept` | source/socket.cpp:73-96 | a failed accept logs and returns null; a successful accept logs the peer and returns a fresh connected, non-listening socket whose local name is the listener's and whose peer name is the accepted address; the listener is not modified |
| `Sockets.Socket.AtMark` | source/socket.cpp:98-111 | the embedded stacks set errno to ENOSYS and return -1 without a call; POSIX returns the primitive's rc and logs a negative one |
| `Sockets.Socket.Bind` | source/socket.cpp:113-168 | a native bind failure returns false with the local name unchanged; otherwise true, with the local name set to `addr` for a non-zero port, or, for port 0, to what getsockname leaves in the local name it writes into (a failure is logged and restores nothing); an unsupported family logs EINVAL and still reaches the port logic |
| `Sockets.Socket.Connect` | source/socket.cpp:170-205 | success records the peer, sets `connected` and returns true; EINPROGRESS makes the same change but returns false; any other failure logs and changes neither peer nor flag; every backend tests errno |
| `Sockets.Socket.Listen` | source/socket.cpp:207-226 | returns true exactly when the primitive succeeds; `listening` becomes true only then and is never cleared |
| `Sockets.Socket.Shutdown` | source/socket.cpp:228-246 | returns true exactly when the primitive succeeds; a failure is logged |
| `Sockets.Socket.SetLinger` | source/socket.cpp:248-270 | the embedded stacks set errno to ENOSYS and return true without a call; POSIX passes the on/off flag and the seconds as a C `int`, and returns whether it succeeded |
| `Sockets.Socket.SetNonBlocking` | source/socket.cpp:272-313 | the embedded stacks issue the FIONBIO ioctl with the requested mode; POSIX reads the flags, and a failed read returns false without writing; otherwise it writes the flags with only `O_NONBLOCK` changed, returning whether both calls succeeded |
| `Sockets.Socket.SetReuseAddress` | source/socket.cpp:315-334 | sets SO_REUSEADDR to the requested value and returns whether the primitive succeeded |
| `Sockets.Socket.SetRecvBufferSize` | source/socket.cpp:336-355 | sets SO_RCVBUF to the size truncated to a C `int` and returns whether the primitive succeeded |
| `Sockets.Socket.SetSendBufferSize` | source/socket.cpp:357-376 | sets SO_SNDBUF to the size truncated to a C `int` and returns whether the primitive succeeded |
| `Sockets.Socket.Read` | source/socket.cpp:378-395 | requires a non-zero size; returns the primitive's rc unchanged; a negative rc is logged unless it is a would-block (EWOULDBLOCK in errno on POSIX and NDS, `-EWOULDBLOCK` or `-EAGAIN` on GEKKO); GEKKO never passes the out-of-band flag |
| `Sockets.Socket.ReadBuffer` | source/socket.cpp:397-406 | requires free space; reads up to the free size; a positive count moves exactly that many bytes from free to used, otherwise the buffer is untouched |
| `Sockets.Socket.Write` | source/socket.cpp:408-424 | requires a non-zero size; returns the primitive's rc unchanged and logs a negative rc unless it is a would-block |
| `Sockets.Socket.WriteBuffer` | source/socket.cpp:426-435 | requires used bytes; sends up to the used size; a positive count removes exactly that many bytes from the used region, otherwise the buffer is untouched |
| `Sockets.Socket.Poll` | source/socket.cpp:468-494 | an empty request returns 0 without a wait; otherwise the wait gets one entry per request (its socket's descriptor, its mask, no result) and the timeout as a C `int`; its rc is returned; a negative rc is logged and leaves the requests untouched, otherwise each result mask is copied back |
| `Sockets.Socket.ToPollFds` | source/socket.cpp:475-481 | builds a fresh `pollfd` array holding each request's descriptor and mask, with the result mask 0 |
| `Sockets.Socket.CopyRevents` | source/socket.cpp:490-491 | copies the result masks of the first `count` entries back to the requests and changes nothing else |

## Left out

- Payload bytes and buffer pointers are not modelled. A read or write carries
  only its size, so the non-null buffer assertion of the raw `read` and
  `write` has nothing to check.
- The native primitives (`socket`, `bind`, `accept`, `connect`, `select`,
  `poll`, `recv`, `send`, `setsockopt`, `fcntl`, `ioctl`, `close` and their
  `net_*` forms) are oracles. Only the arguments the layer passes and its
  decisions about their results are modelled.
- `ReadBuffer` and `WriteBuffer` require the primitive's count not to exceed
  the size asked for. This is a promise of `recv` and `send`, not a check in
  the layer.
- `IOBuffer` is not part of this model. It is reduced to two sizes. `markUsed`
  moves bytes from free to used. `markFree` shrinks the used region and leaves
  the free size alone, because the container's own compaction policy is not
  modelled.
- Address text formatting (`name()`), network byte order of ports, and the
  `sockaddr` length passed to each call are not modelled.
- Log text and `strerror` are not modelled. A log line is recorded as its
  kind: the primitive it names with its error number, or the lifecycle note
  with its address.
- The `sockName()` and `peerName()` accessors are not separate members. They
  are the class's public fields.
- Ownership through `std::unique_ptr` is not modelled beyond a ghost `closed`
  flag. The flag makes the destructor run once and forbids use afterwards.
- Threads, and the time that a wait actually blocks, are not modelled.
- errno numbers use Linux numbering, `O_NONBLOCK` is 0x800, and the poll bits
  are 0x1, 0x4 and 0x8. EWOULDBLOCK and EAGAIN are the same number, as on
  every target of the source. The properties need only the other errno values
  to be distinct, and the poll bits and `O_NONBLOCK` to be distinct single
  bits.
- Bind: when getsockname fails, what it leaves in the local name (its output
  buffer) is not constrained. It is an oracle output exactly like the name a
  successful call fills in.
- Platform bring-up in `source/gamecube/platform.cpp` is not part of this
  model.

/**
 * Readiness multiplexing: the `poll` emulation built on a select-style wait
 * for the stacks that have no native `poll`, and the native `poll` itself as
 * an oracle. A descriptor set is a `set<int>`; the wait primitive's answer
 * (its return value, errno and the three sets it hands back) is a parameter.
 */
module Multiplexer {
  import opened NetTypes

  /** What the select-style wait returned: rc, errno and the three result sets. */
  datatype SelectResult = SelectResult(
    rc: int, errno: int, readFds: set<int>, writeFds: set<int>, exceptFds: set<int>)

  /** The answer of whichever wait the backend uses. */
  datatype Wait =
    | NativeWait(rc: int, errno: int, revents: seq<bv16>)
    | SelectWait(sel: SelectResult)

  // ---------------------------------------------------------------------
  // Timeout conversion, with C's truncating division

  /** C's `a / d` for a positive divisor: rounds toward zero. */
  function CQuot(a: int, d: int): int
    requires d > 0
  {
    if a >= 0 then a / d else -((-a) / d)
  }

  /** C's `a % d` for a positive divisor: takes the sign of `a`. */
  function CRem(a: int, d: int): int
    requires d > 0
  {
    a - d * CQuot(a, d)
  }

  /** The `timeval` a millisecond timeout becomes before the wait. */
  function SplitTimeout(timeout: int): (tv: Timeval)
    ensures tv.sec * 1000000 + tv.usec == timeout * 1000
    ensures timeout >= 0 ==> 0 <= tv.usec < 1000000 && tv.sec == timeout / 1000
    ensures timeout < 0 ==> -1000000 < tv.usec <= 0 && tv.sec <= 0
  {
    Timeval(CQuot(timeout, 1000), CRem(timeout, 1000) * 1000)
  }

  // ---------------------------------------------------------------------
  // Descriptor sets built from the requested masks

  /** Entry `e` asks for the condition `bit`. */
  predicate Asks(e: PollFd, bit: bv16)
  {
    e.events & bit != 0
  }

  /** The descriptors of the entries of `s` whose requested mask has `bit`. */
  function Requested(s: seq<PollFd>, bit: bv16): set<int>
  {
    if s == [] then {}
    else Requested(s[..|s| - 1], bit) + if Asks(s[|s| - 1], bit) then {s[|s| - 1].fd} else {}
  }

  /** A descriptor is in the set exactly when some entry for it asks for `bit`. */
  lemma {:induction false} RequestedMembers(s: seq<PollFd>, bit: bv16, fd: int)
    ensures fd in Requested(s, bit) <==> exists i :: 0 <= i < |s| && s[i].fd == fd && Asks(s[i], bit)
  {
    if s != [] {
      var t := s[..|s| - 1];
      RequestedMembers(t, bit, fd);
      if fd in Requested(s, bit) {
        if fd in Requested(t, bit) {
          var i :| 0 <= i < |t| && t[i].fd == fd && Asks(t[i], bit);
          assert s[i] == t[i];
        } else {
          assert s[|s| - 1].fd == fd && Asks(s[|s| - 1], bit);
        }
      }
      if exists i :: 0 <= i < |s| && s[i].fd == fd && Asks(s[i], bit) {
        var i :| 0 <= i < |s| && s[i].fd == fd && Asks(s[i], bit);
        if i < |t| {
          assert t[i] == s[i];
        }
      }
    }
  }

  /**
   * Fills the read and write descriptor sets from the requested masks of the
   * first `nfds` entries.
   */
  method RequestSets(fds: array<PollFd>, nfds: nat) returns (readFds: set<int>, writeFds: set<int>)
    requires nfds <= fds.Length
    ensures readFds == Requested(fds[..nfds], POLLIN)
    ensures writeFds == Requested(fds[..nfds], POLLOUT)
  {
    readFds, writeFds := {}, {};
    var i := 0;
    while i < nfds
      invariant 0 <= i <= nfds
      invariant readFds == Requested(fds[..i], POLLIN)
      invariant writeFds == Requested(fds[..i], POLLOUT)
    {
      assert fds[..i + 1][..i] == fds[..i];
      if fds[i].events & POLLIN != 0 {
        readFds := readFds + {fds[i].fd};
      }
      if fds[i].events & POLLOUT != 0 {
        writeFds := writeFds + {fds[i].fd};
      }
      i := i + 1;
    }
  }

  // ---------------------------------------------------------------------
  // Result masks rebuilt from the returned sets

  /** The wait reported `fd` in at least one of its result sets. */
  predicate Signalled(fd: int, sel: SelectResult)
  {
    fd in sel.readFds || fd in sel.writeFds || fd in sel.exceptFds
  }

  /** The result mask an entry for `fd` receives. */
  function Revents(fd: int, sel: SelectResult): (r: bv16)
    ensures (r & POLLIN != 0) <==> fd in sel.readFds
    ensures (r & POLLOUT != 0) <==> fd in sel.writeFds
    ensures (r & POLLERR != 0) <==> fd in sel.exceptFds
    ensures r & !(POLLIN | POLLOUT | POLLERR) == 0
    ensures r != 0 <==> Signalled(fd, sel)
  {
    var r: bv16 := 0;
    var r := if fd in sel.readFds then r | POLLIN else r;
    var r := if fd in sel.writeFds then r | POLLOUT else r;
    if fd in sel.exceptFds then r | POLLERR else r
  }

  /** Every entry of `s` with its result mask rebuilt from the returned sets. */
  function Answer(s: seq<PollFd>, sel: SelectResult): seq<PollFd>
  {
    seq(|s|, i requires 0 <= i < |s| => s[i].(revents := Revents(s[i].fd, sel)))
  }

  /** The number of entries whose result mask is non-zero. */
  function ReadyCount(s: seq<PollFd>): nat
  {
    if s == [] then 0
    else ReadyCount(s[..|s| - 1]) + if s[|s| - 1].revents != 0 then 1 else 0
  }

  /** Each entry is counted at most once, and only when its result mask is non-zero. */
  lemma {:induction false} ReadyCountBound(s: seq<PollFd>)
    ensures ReadyCount(s) <= |s|
    ensures ReadyCount(s) == |s| <==> forall i :: 0 <= i < |s| ==> s[i].revents != 0
    ensures ReadyCount(s) == 0 <==> forall i :: 0 <= i < |s| ==> s[i].revents == 0
  {
    if s != [] {
      var t := s[..|s| - 1];
      ReadyCountBound(t);
      assert forall i :: 0 <= i < |t| ==> t[i] == s[i];
    }
  }

  // ---------------------------------------------------------------------
  // The emulation

  /**
   * `poll` on top of the select-style wait: the requested masks of the first
   * `nfds` entries become the read and write sets (the exception set starts
   * empty), the millisecond timeout becomes a `timeval`, and the sets the
   * wait hands back become the entries' result masks. Returns the wait's rc
   * when it is negative, and otherwise the number of entries signalled.
   */
  method EmulatedPoll(host: Host, fds: array<PollFd>, nfds: nat, timeout: int, sel: SelectResult)
    returns (rc: int)
    requires nfds <= fds.Length
    modifies fds, host
    ensures host.errno == sel.errno
    ensures host.trace == old(host.trace) + [Invoked(SelectCall(nfds,
      Requested(old(fds[..nfds]), POLLIN), Requested(old(fds[..nfds]), POLLOUT), {}, SplitTimeout(timeout)))]
    ensures sel.rc < 0 ==> rc == sel.rc && fds[..] == old(fds[..])
    ensures sel.rc >= 0 ==> fds[..nfds] == Answer(old(fds[..nfds]), sel) && fds[nfds..] == old(fds[nfds..])
    ensures sel.rc >= 0 ==> rc == ReadyCount(fds[..nfds]) && 0 <= rc <= nfds
  {
    var readFds, writeFds := RequestSets(fds, nfds);
    var exceptFds: set<int> := {};
    var tv := SplitTimeout(timeout);
    host.Invoke(SelectCall(nfds, readFds, writeFds, exceptFds, tv), sel.errno);
    if sel.rc < 0 {
      return sel.rc;
    }

    rc := MarkReady(fds, nfds, sel);
  }

  /**
   * Rewrites the result masks of the first `nfds` entries from the returned
   * sets and counts the entries that received a non-zero mask, once each.
   */
  method MarkReady(fds: array<PollFd>, nfds: nat, sel: SelectResult) returns (count: int)
    requires nfds <= fds.Length
    modifies fds
    ensures fds[..nfds] == Answer(old(fds[..nfds]), sel)
    ensures fds[nfds..] == old(fds[nfds..])
    ensures count == ReadyCount(fds[..nfds]) && 0 <= count <= nfds
  {
    count := 0;
    var i := 0;
    while i < nfds
      invariant 0 <= i <= nfds
      invariant forall k :: 0 <= k < i ==> fds[k] == old(fds[k]).(revents := Revents(old(fds[k]).fd, sel))
      invariant forall k :: i <= k < fds.Length ==> fds[k] == old(fds[k])
      invariant count == ReadyCount(fds[..i])
    {
      var counted := false;
      var revents: bv16 := 0;
      if fds[i].fd in sel.readFds {
        counted := true;
        revents := revents | POLLIN;
      }
      if fds[i].fd in sel.writeFds {
        counted := true;
        revents := revents | POLLOUT;
      }
      if fds[i].fd in sel.exceptFds {
        counted := true;
        revents := revents | POLLERR;
      }
      assert revents == Revents(fds[i].fd, sel);
      fds[i] := fds[i].(revents := revents);
      assert fds[..i + 1][..i] == fds[..i];
      if counted {
        count := count + 1;
      }
      i := i + 1;
    }
    ReadyCountBound(fds[..nfds]);
  }

  /**
   * The native `poll` of the POSIX stack, as an oracle: it is handed the
   * first `nfds` entries and, when it succeeds, fills in their result masks.
   */
  method NativePoll(host: Host, fds: array<PollFd>, nfds: nat, timeout: int, rc: int, errno: int,
                    revents: seq<bv16>) returns (n: int)
    requires nfds <= fds.Length && |revents| == nfds
    modifies fds, host
    ensures n == rc && host.errno == errno
    ensures host.trace == old(host.trace) + [Invoked(PollCall(old(fds[..nfds]), timeout))]
    ensures rc < 0 ==> fds[..] == old(fds[..])
    ensures rc >= 0 ==> forall i :: 0 <= i < fds.Length ==>
      fds[i] == if i < nfds then old(fds[i]).(revents := revents[i]) else old(fds[i])
  {
    host.Invoke(PollCall(fds[..nfds], timeout), errno);
    if rc >= 0 {
      forall i | 0 <= i < nfds {
        fds[i] := fds[i].(revents := revents[i]);
      }
    }
    n := rc;
  }

  // ---------------------------------------------------------------------
  // What either wait does to a batch of requests, for the callers' contracts

  /** The return value of the wait. */
  function WaitRc(w: Wait, reqs: seq<PollFd>): int
  {
    match w
    case NativeWait(rc, _, _) => rc
    case SelectWait(sel) => if sel.rc < 0 then sel.rc else ReadyCount(Answer(reqs, sel))
  }

  /** errno after the wait. */
  function WaitErrno(w: Wait): int
  {
    match w
    case NativeWait(_, errno, _) => errno
    case SelectWait(sel) => sel.errno
  }

  /** The result mask the wait gives entry `i`. */
  function WaitRevents(w: Wait, reqs: seq<PollFd>, i: nat): bv16
    requires w.NativeWait? ==> |w.revents| == |reqs|
    requires i < |reqs|
  {
    match w
    case NativeWait(_, _, revents) => revents[i]
    case SelectWait(sel) => Revents(reqs[i].fd, sel)
  }

  /** The native call the wait issues. */
  function WaitCall(w: Wait, reqs: seq<PollFd>, timeout: int): Syscall
  {
    match w
    case NativeWait(_, _, _) => PollCall(reqs, timeout)
    case SelectWait(_) =>
      SelectCall(|reqs|, Requested(reqs, POLLIN), Requested(reqs, POLLOUT), {}, SplitTimeout(timeout))
  }

  /** The emulated wait never reports more ready entries than it was given. */
  lemma EmulatedWaitBound(sel: SelectResult, reqs: seq<PollFd>)
    requires sel.rc >= 0
    ensures 0 <= WaitRc(SelectWait(sel), reqs) <= |reqs|
    ensures WaitRc(SelectWait(sel), reqs) == 0 <==> forall i :: 0 <= i < |reqs| ==> !Signalled(reqs[i].fd, sel)
  {
    var a := Answer(reqs, sel);
    ReadyCountBound(a);
    assert forall i :: 0 <= i < |reqs| ==> a[i].revents == Revents(reqs[i].fd, sel);
  }

  /**
   * Two sockets both asking to read, a zero timeout, and a wait that reports
   * only the first readable: exactly one entry is ready and it carries only
   * the readable bit.
   */
  lemma OneReadableOneIdle(a: int, b: int)
    requires a != b
    ensures SplitTimeout(0) == Timeval(0, 0)
    ensures WaitCall(SelectWait(SelectResult(1, 0, {a}, {}, {})), [PollFd(a, POLLIN, 0), PollFd(b, POLLIN, 0)], 0)
            == SelectCall(2, {a, b}, {}, {}, Timeval(0, 0))
    ensures WaitRc(SelectWait(SelectResult(1, 0, {a}, {}, {})), [PollFd(a, POLLIN, 0), PollFd(b, POLLIN, 0)]) == 1
    ensures WaitRevents(SelectWait(SelectResult(1, 0, {a}, {}, {})), [PollFd(a, POLLIN, 0), PollFd(b, POLLIN, 0)], 0)
            == POLLIN
    ensures WaitRevents(SelectWait(SelectResult(1, 0, {a}, {}, {})), [PollFd(a, POLLIN, 0), PollFd(b, POLLIN, 0)], 1)
            == 0
  {
    var reqs := [PollFd(a, POLLIN, 0), PollFd(b, POLLIN, 0)];
    var sel := SelectResult(1, 0, {a}, {}, {});
    assert reqs[..1] == [reqs[0]] && [reqs[0]][..0] == [];
    assert Asks(reqs[0], POLLIN) && Asks(reqs[1], POLLIN);
    assert !Asks(reqs[0], POLLOUT) && !Asks(reqs[1], POLLOUT);
    assert Requested([reqs[0]], POLLIN) == {a};
    assert Requested([reqs[0]], POLLOUT) == {};
    assert Requested(reqs, POLLIN) == {a, b};
    assert Requested(reqs, POLLOUT) == {};
    var ans := Answer(reqs, sel);
    assert ans[..1] == [ans[0]] && [ans[0]][..0] == [];
    assert ans[0].revents == POLLIN && ans[1].revents == 0;
    assert ReadyCount(ans[..1]) == 1;
    assert ReadyCount(ans) == 1;
  }
}

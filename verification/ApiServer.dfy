/** The plaintext API server: several tasks ship frames to several sockets through
    one staging buffer under one mutex, with sends that may be short or fail. */
module ApiServer {
  import opened Prelude
  import opened FrameCodec

  const MAX_API_CLIENTS := 4
  const MAX_MESSAGE_SIZE := 2048

  type Fd = nat
  type TaskId = nat

  // ------------------------------------------------------- the client table

  /** Slots hold a descriptor, or a negative number when unused. */
  function RegisterIn(slots: seq<int>, fd: Fd): seq<int> {
    if slots == [] then []
    else if slots[0] < 0 then [fd] + slots[1..]
    else [slots[0]] + RegisterIn(slots[1..], fd)
  }

  function UnregisterIn(slots: seq<int>, fd: Fd): seq<int> {
    if slots == [] then []
    else if slots[0] == fd then [-1] + slots[1..]
    else [slots[0]] + UnregisterIn(slots[1..], fd)
  }

  predicate HasFreeSlot(slots: seq<int>) {
    exists i :: 0 <= i < |slots| && slots[i] < 0
  }

  /** The descriptors in slot order. */
  function Clients(slots: seq<int>): seq<Fd> {
    if slots == [] then []
    else if slots[0] < 0 then Clients(slots[1..])
    else [slots[0]] + Clients(slots[1..])
  }

  ghost predicate Distinct<T(!new)>(s: seq<T>) {
    forall i, j :: 0 <= i < j < |s| ==> s[i] != s[j]
  }

  lemma {:induction false} ClientsMembers(slots: seq<int>)
    ensures forall fd: Fd :: fd in Clients(slots) <==> fd in slots
  {
    if slots != [] {
      ClientsMembers(slots[1..]);
      assert slots == [slots[0]] + slots[1..];
    }
  }

  /** The live slots name each client once. */
  ghost predicate TableOk(slots: seq<int>) {
    forall i, j :: 0 <= i < j < |slots| && slots[i] >= 0 ==> slots[i] != slots[j]
  }

  lemma {:induction false} ClientsDistinct(slots: seq<int>)
    requires TableOk(slots)
    ensures Distinct(Clients(slots))
  {
    if slots != [] {
      assert forall i, j :: 0 <= i < j < |slots[1..]| ==> slots[1..][i] == slots[i + 1] && slots[1..][j] == slots[j + 1];
      ClientsDistinct(slots[1..]);
      ClientsMembers(slots[1..]);
      if slots[0] >= 0 {
        assert slots[0] !in slots[1..];
      }
    }
  }

  /** Registering adds exactly the new client, and does so exactly when a slot is free. */
  lemma FreeSlotBehind(slots: seq<int>)
    requires slots != [] && slots[0] >= 0
    ensures HasFreeSlot(slots) <==> HasFreeSlot(slots[1..])
  {
    var t := slots[1..];
    assert forall i :: 0 <= i < |t| ==> t[i] == slots[i + 1];
    if HasFreeSlot(slots) {
      var i :| 0 <= i < |slots| && slots[i] < 0;
      assert t[i - 1] < 0;
    }
  }

  lemma {:induction false} RegisterEffect(slots: seq<int>, fd: Fd)
    requires TableOk(slots) && fd !in slots
    ensures var r := RegisterIn(slots, fd);
            && |r| == |slots| && TableOk(r)
            && (forall x: int :: x >= 0 ==> (x in r <==> x in slots || (x == fd && HasFreeSlot(slots))))
            && (!HasFreeSlot(slots) ==> r == slots)
  {
    if slots != [] && slots[0] >= 0 {
      var t := slots[1..];
      assert slots == [slots[0]] + t;
      assert forall i :: 0 <= i < |t| ==> t[i] == slots[i + 1];
      RegisterEffect(t, fd);
      FreeSlotBehind(slots);
      assert slots[0] !in t;
      assert RegisterIn(slots, fd) == [slots[0]] + RegisterIn(t, fd);
      hide RegisterIn, HasFreeSlot;
    } else if slots != [] {
      assert slots == [slots[0]] + slots[1..];
      assert slots[0] < 0;
    }
  }

  lemma {:induction false} UnregisterEffect(slots: seq<int>, fd: Fd)
    requires TableOk(slots)
    ensures var r := UnregisterIn(slots, fd);
            && |r| == |slots| && TableOk(r)
            && (forall x: int :: x >= 0 ==> (x in r <==> x in slots && x != fd))
  {
    if slots != [] {
      var t := slots[1..];
      assert slots == [slots[0]] + t;
      assert forall i :: 0 <= i < |t| ==> t[i] == slots[i + 1];
      UnregisterEffect(t, fd);
      if slots[0] >= 0 {
        assert slots[0] !in t;
      }
    }
  }

  /** `g_client_fds`; both methods run under the clients mutex. */
  class ClientTable {
    const fds: array<int>

    constructor ()
      ensures fresh(fds) && fds[..] == [-1, -1, -1, -1]
    {
      var a := new int[MAX_API_CLIENTS](_ => -1);
      fds := a;
    }

    method Register(fd: Fd) returns (ok: bool)
      modifies fds
      ensures fds[..] == RegisterIn(old(fds[..]), fd)
      ensures ok <==> old(HasFreeSlot(fds[..]))
    {
      ghost var o := fds[..];
      var i := 0;
      while i < fds.Length
        invariant 0 <= i <= fds.Length
        invariant fds[..] == o
        invariant forall k :: 0 <= k < i ==> o[k] >= 0
        invariant RegisterIn(o, fd) == o[..i] + RegisterIn(o[i..], fd)
      {
        if fds[i] < 0 {
          assert o[i] < 0;
          fds[i] := fd;
          assert RegisterIn(o[i..], fd) == [fd] + o[i..][1..];
          assert fds[..] == o[..i] + ([fd] + o[i..][1..]);
          return true;
        }
        RegisterStep(o, i, fd);
        i := i + 1;
      }
      return false;
    }

    method Unregister(fd: Fd)
      modifies fds
      ensures fds[..] == UnregisterIn(old(fds[..]), fd)
    {
      ghost var o := fds[..];
      var i := 0;
      while i < fds.Length
        invariant 0 <= i <= fds.Length
        invariant fds[..] == o
        invariant UnregisterIn(o, fd) == o[..i] + UnregisterIn(o[i..], fd)
      {
        if fds[i] == fd {
          fds[i] := -1;
          assert UnregisterIn(o[i..], fd) == [-1] + o[i..][1..];
          assert fds[..] == o[..i] + ([-1] + o[i..][1..]);
          return;
        }
        UnregisterStep(o, i, fd);
        i := i + 1;
      }
    }
  }

  lemma RegisterStep(o: seq<int>, i: nat, fd: Fd)
    requires i < |o| && o[i] >= 0
    ensures o[..i] + RegisterIn(o[i..], fd) == o[..i + 1] + RegisterIn(o[i + 1..], fd)
  {
    assert o[i..][1..] == o[i + 1..];
  }

  lemma UnregisterStep(o: seq<int>, i: nat, fd: Fd)
    requires i < |o| && o[i] != fd
    ensures o[..i] + UnregisterIn(o[i..], fd) == o[..i + 1] + UnregisterIn(o[i + 1..], fd)
  {
    assert o[i..][1..] == o[i + 1..];
  }

  // ------------------------------------------------------------ one socket

  /** The sending side of a blocking socket: each call takes an arbitrary non-empty
      part of what it is offered, or fails. */
  class Outbound {
    var wire: seq<byte>
    /** How many sends have failed. */
    ghost var failures: nat

    method Send(buf: array<byte>, from: nat, n: nat) returns (r: int)
      requires n > 0 && from + n <= buf.Length
      modifies this
      ensures r < 0 || 1 <= r <= n
      ensures wire == old(wire) + (if r < 0 then [] else buf[from..from + r])
      ensures failures == old(failures) + (if r < 0 then 1 else 0)
    {
      var k: nat :| k <= n;
      r := if k == 0 then -1 else k;
      if r >= 0 {
        wire := wire + buf[from..from + r];
      } else {
        failures := failures + 1;
      }
    }
  }

  /** Ships the payload staged behind the header area: the whole frame whatever the short sends, and
      a strict prefix of it if and only if a send failed. The payload stays in place for the next client. */
  method SendLockedTo(sock: Outbound, buf: array<byte>, msgType: uint16, payloadLen: uint32) returns (ok: bool)
    requires MAX_HEADER_LEN + payloadLen <= buf.Length
    requires |Header(msgType, payloadLen)| <= MAX_HEADER_LEN
    modifies sock, buf
    ensures buf[MAX_HEADER_LEN..] == old(buf[MAX_HEADER_LEN..])
    ensures var frame := FrameBytes(msgType, old(buf[MAX_HEADER_LEN..MAX_HEADER_LEN + payloadLen]));
            && old(sock.wire) <= sock.wire <= old(sock.wire) + frame
            && (ok <==> sock.wire == old(sock.wire) + frame)
    ensures ok <==> sock.failures == old(sock.failures)
    ensures sock.failures <= old(sock.failures) + 1
  {
    var start := PrependHeader(buf, msgType, payloadLen);
    hide FrameBytes, Header;
    var total := MAX_HEADER_LEN - start + payloadLen;
    ok := SendAll(sock, buf, start, total);
  }

  method SendAll(sock: Outbound, buf: array<byte>, start: nat, total: nat) returns (ok: bool)
    requires start + total <= buf.Length
    modifies sock
    ensures var frame := buf[start..start + total];
            && old(sock.wire) <= sock.wire <= old(sock.wire) + frame
            && (ok <==> sock.wire == old(sock.wire) + frame)
    ensures ok <==> sock.failures == old(sock.failures)
    ensures sock.failures <= old(sock.failures) + 1
  {
    ghost var before := sock.wire;
    ghost var frame := buf[start..start + total];
    var sent := 0;
    while sent < total
      invariant 0 <= sent <= total
      invariant sock.wire == before + frame[..sent] && sock.failures == old(sock.failures)
    {
      var r := sock.Send(buf, start + sent, total - sent);
      if r < 0 {
        assert |sock.wire| < |before + frame|;
        return false;
      }
      SliceOfSlice(buf[..], start, frame, sent, r);
      assert frame[..sent] + frame[sent..sent + r] == frame[..sent + r];
      sent := sent + r;
    }
    assert frame[..total] == frame;
    ok := true;
  }

  lemma SliceOfSlice(s: seq<byte>, start: nat, part: seq<byte>, a: nat, n: nat)
    requires start + |part| <= |s| && s[start..start + |part|] == part && a + n <= |part|
    ensures s[start + a..start + a + n] == part[a..a + n]
  {
    var left, right := s[start + a..start + a + n], part[a..a + n];
    forall i | 0 <= i < n
      ensures left[i] == right[i]
    {
      assert part[a + i] == s[start..start + |part|][a + i] == s[start + (a + i)];
    }
  }

  /** A table of four has a free slot exactly while fewer than four clients are registered. */
  lemma {:induction false} RoomIff(slots: seq<int>)
    ensures |Clients(slots)| <= |slots|
    ensures HasFreeSlot(slots) <==> |Clients(slots)| < |slots|
  {
    if slots != [] {
      RoomIff(slots[1..]);
      if slots[0] >= 0 {
        FreeSlotBehind(slots);
      }
    }
  }
}

/** The five-socket connection handshake and its cleanup, over a network whose
    every answer may fail. */
module Connections {
  import opened Messages
  import opened Sockets

  const INVALID_SOCKET: int := -1

  /** What happened on the network, by connection; `Served` marks the entry into
      the client loop. */
  datatype Event =
    | Accepted(id: nat)
    | Welcomed(id: nat, handle: nat)
    | Got(id: nat, msg: string)
    | Sent(id: nat, msg: string)
    | Closed(id: nat)
    | Served

  // ---------- the protocol a served client has followed ----------

  /** Accept, exact acknowledgement, ready. */
  function Joined(id: nat, name: string, handle: nat): seq<Event> {
    [Accepted(id), Got(id, Expected(name, handle)), Sent(id, READY)]
  }

  /** The same on the control socket, after the welcome message. */
  function Greeted(id: nat, handle: nat): seq<Event> {
    [Accepted(id), Welcomed(id, handle), Got(id, Expected(CONTROL, handle)), Sent(id, READY)]
  }

  function JoinedAll(id: nat, handle: nat): (r: seq<Event>)
    ensures |r| == 12
  {
    Joined(id, MANAGEMENT, handle) + Joined(id + 1, MANAGEMENT_RSP, handle)
    + Joined(id + 2, H2T, handle) + Joined(id + 3, T2H, handle)
  }

  /** The whole handshake: five connections in order, each of which acknowledged
      the one handle announced on the first. */
  function Session(id: nat, handle: nat): (r: seq<Event>)
    ensures |r| == 17
  {
    Greeted(id, handle) + JoinedAll(id + 1, handle) + [Sent(id, READY)]
  }

  /** The whole handshake event by event. */
  lemma SessionIs(id: nat, h: nat)
    ensures Session(id, h) == [
      Accepted(id), Welcomed(id, h), Got(id, "Control HANDLE=" + Decimal(h)), Sent(id, "READY"),
      Accepted(id + 1), Got(id + 1, "Management HANDLE=" + Decimal(h)), Sent(id + 1, "READY"),
      Accepted(id + 2), Got(id + 2, "Management Response HANDLE=" + Decimal(h)), Sent(id + 2, "READY"),
      Accepted(id + 3), Got(id + 3, "H2T HANDLE=" + Decimal(h)), Sent(id + 3, "READY"),
      Accepted(id + 4), Got(id + 4, "T2H HANDLE=" + Decimal(h)), Sent(id + 4, "READY"),
      Sent(id, "READY")]
  {
    ExpectedText(CONTROL, "Control HANDLE=", h);
    ExpectedText(MANAGEMENT, "Management HANDLE=", h);
    ExpectedText(MANAGEMENT_RSP, "Management Response HANDLE=", h);
    ExpectedText(H2T, "H2T HANDLE=", h);
    ExpectedText(T2H, "T2H HANDLE=", h);
  }

  // ---------- what may go wrong ----------

  /** The sockets of a client in the order of their connections. */
  const SOCKET_NAMES: seq<string> := [CONTROL, MANAGEMENT, MANAGEMENT_RSP, H2T, T2H]

  /** A text on one of the five connections from `base` on that does not
      acknowledge the handle for that socket. */
  predicate Wrong(e: Event, base: nat, handle: nat) {
    e.Got? && base <= e.id < base + 5 && e.msg != Expected(SOCKET_NAMES[e.id - base], handle)
  }

  function Wrongs(log: seq<Event>, base: nat, handle: nat): nat {
    if log == [] then 0
    else Wrongs(log[..|log| - 1], base, handle) + if Wrong(log[|log| - 1], base, handle) then 1 else 0
  }

  lemma WrongsNext(log: seq<Event>, e: Event, base: nat, handle: nat)
    ensures Wrongs(log + [e], base, handle) == Wrongs(log, base, handle) + if Wrong(e, base, handle) then 1 else 0
  {
    assert (log + [e])[..|log|] == log;
  }

  /** The log ends with a whole handshake. */
  ghost predicate Admitted(log: seq<Event>) {
    |log| >= 17 && exists id, h :: log[|log| - 17..] == Session(id, h)
  }

  // ---------- the network ----------

  /** The log accepts the connections `0 .. next` in order, closes only open
      ones, and leaves `open` open; it enters the client loop only right after a
      whole handshake. */
  ghost predicate Consistent(log: seq<Event>, next: nat, open: map<int, nat>)
    decreases |log|
  {
    if log == [] then next == 0 && open == map[]
    else
      var front := log[..|log| - 1];
      match log[|log| - 1]
      case Accepted(id) =>
        next == id + 1 && exists fd :: fd in open && open[fd] == id && Consistent(front, id, open - {fd})
      case Closed(id) => exists fd :: fd !in open && Consistent(front, next, open[fd := id])
      case Served => Admitted(front) && Consistent(front, next, open)
      case _ => Consistent(front, next, open)
  }

  lemma AcceptNext(log: seq<Event>, next: nat, open: map<int, nat>, fd: int)
    requires Consistent(log, next, open) && fd !in open
    ensures Consistent(log + [Accepted(next)], next + 1, open[fd := next])
  {
    var after := open[fd := next];
    assert (log + [Accepted(next)])[..|log|] == log;
    assert after - {fd} == open;
    assert fd in after && after[fd] == next && Consistent(log, next, after - {fd});
  }

  lemma CloseNext(log: seq<Event>, next: nat, open: map<int, nat>, fd: int)
    requires Consistent(log, next, open) && fd in open
    ensures Consistent(log + [Closed(open[fd])], next, open - {fd})
  {
    var after := open - {fd};
    assert (log + [Closed(open[fd])])[..|log|] == log;
    assert after[fd := open[fd]] == open;
    assert fd !in after && Consistent(log, next, after[fd := open[fd]]);
  }

  lemma OtherNext(log: seq<Event>, next: nat, open: map<int, nat>, e: Event)
    requires Consistent(log, next, open) && !e.Accepted? && !e.Closed?
    requires e.Served? ==> Admitted(log)
    ensures Consistent(log + [e], next, open)
  {
    assert (log + [e])[..|log|] == log;
  }

  ghost predicate IsOpen(open: map<int, nat>, id: nat) {
    exists fd :: fd in open && open[fd] == id
  }

  ghost predicate Distinct(open: map<int, nat>) {
    forall a, b :: a in open && b in open && open[a] == open[b] ==> a == b
  }

  /** In a consistent log every numbered connection was accepted once, and those
      that are not open any more were closed once. */
  lemma {:induction false} ConsistentCounts(log: seq<Event>, next: nat, open: map<int, nat>, id: nat)
    requires Consistent(log, next, open)
    ensures Distinct(open) && (IsOpen(open, id) ==> id < next)
    ensures multiset(log)[Accepted(id)] == if id < next then 1 else 0
    ensures multiset(log)[Closed(id)] == if id < next && !IsOpen(open, id) then 1 else 0
    decreases |log|
  {
    if log == [] {
    } else {
      var front, e := log[..|log| - 1], log[|log| - 1];
      assert log == front + [e];
      assert multiset(log) == multiset(front) + multiset{e};
      match e
      case Accepted(k) =>
        var fd :| fd in open && open[fd] == k && Consistent(front, k, open - {fd});
        ConsistentCounts(front, k, open - {fd}, id);
        ConsistentCounts(front, k, open - {fd}, k);
        OneMore(open - {fd}, fd, k, open, id);
      case Closed(k) =>
        var fd :| fd !in open && Consistent(front, next, open[fd := k]);
        ConsistentCounts(front, next, open[fd := k], id);
        OneMore(open, fd, k, open[fd := k], id);
      case _ => ConsistentCounts(front, next, open, id);
    }
  }

  lemma OneMore(open: map<int, nat>, fd: int, k: nat, more: map<int, nat>, id: nat)
    requires fd !in open && fd in more && more[fd] == k && open == more - {fd}
    ensures IsOpen(more, id) <==> id == k || IsOpen(open, id)
    ensures Distinct(open) && !IsOpen(open, k) ==> Distinct(more)
    ensures Distinct(more) ==> Distinct(open) && !IsOpen(open, k)
  {
    if f :| f in open && open[f] == id { assert more[f] == id; }
    if f :| f in more && more[f] == id { assert f == fd || open[f] == id; }
    forall a, b | Distinct(open) && !IsOpen(open, k) && a in more && b in more && more[a] == more[b]
      ensures a == b
    {
      assert a == fd || open[a] == more[a];
      assert b == fd || open[b] == more[b];
    }
  }

  /** The client loop is entered only right after five connections, in order,
      each acknowledged the one handle announced on the first. */
  lemma {:induction false} ServedAfterHandshake(log: seq<Event>, next: nat, open: map<int, nat>, k: nat)
    requires Consistent(log, next, open) && k < |log| && log[k].Served?
    ensures k >= 17 && exists id, h :: log[k - 17..k] == Session(id, h)
    decreases |log|
  {
    var front := log[..|log| - 1];
    if k < |front| {
      assert front[k].Served?;
      match log[|log| - 1] {
        case Accepted(i) =>
          var fd :| fd in open && open[fd] == i && Consistent(front, i, open - {fd});
          ServedAfterHandshake(front, i, open - {fd}, k);
        case Closed(i) =>
          var fd :| fd !in open && Consistent(front, next, open[fd := i]);
          ServedAfterHandshake(front, next, open[fd := i], k);
        case _ => ServedAfterHandshake(front, next, open, k);
      }
      assert log[k - 17..k] == front[k - 17..k];
    } else {
      assert log[k - 17..k] == front[|front| - 17..];
    }
  }

  /** The sockets API: descriptors may be reused after a close, connections are
      numbered. Closing a descriptor that is not open is counted as a fault, and
      every other call that fails is counted too. */
  class Net {
    var log: seq<Event>
    var next: nat
    var open: map<int, nat>
    var badCloses: nat
    ghost var fails: nat

    ghost predicate Valid()
      reads this
    {
      Consistent(log, next, open)
    }

    constructor ()
      ensures Valid() && open == map[] && log == [] && badCloses == fails == 0
    {
      log, next, open, badCloses, fails := [], 0, map[], 0, 0;
    }

    /** Failed calls, and wrong texts from the client of connection `base`. */
    ghost function Troubles(base: nat, handle: nat): nat
      reads this
    {
      fails + Wrongs(log, base, handle)
    }

    method Accept() returns (fd: int)
      requires Valid()
      modifies this
      ensures Valid() && badCloses == old(badCloses)
      ensures fails == old(fails) + if fd == INVALID_SOCKET then 1 else 0
      ensures fd == INVALID_SOCKET ==> log == old(log) && open == old(open) && next == old(next)
      ensures fd != INVALID_SOCKET ==>
                && fd !in old(open) && open == old(open)[fd := old(next)] && open.Keys == old(open.Keys) + {fd}
                && next == old(next) + 1
                && log == old(log) + [Accepted(old(next))]
    {
      fd := INVALID_SOCKET;
      if * {
        ghost var free := FreeDescriptor(open.Keys);
        assert free >= 0 && free !in open;
        fd :| fd >= 0 && fd !in open;
        AcceptNext(log, next, open, fd);
        log := log + [Accepted(next)];
        open := open[fd := next];
        next := next + 1;
      } else {
        fails := fails + 1;
      }
    }

    /** `set_tcp_no_delay` */
    method SetNoDelay(fd: int) returns (ok: bool)
      requires Valid()
      modifies this`fails
      ensures fails == old(fails) + if ok then 0 else 1
    {
      ok := *;
      if !ok { fails := fails + 1; }
    }

    method Close(fd: int)
      requires Valid()
      modifies this
      ensures Valid() && next == old(next) && fails == old(fails)
      ensures fd in old(open) ==>
                open == old(open) - {fd} && open.Keys == old(open.Keys) - {fd}
                && log == old(log) + [Closed(old(open)[fd])] && badCloses == old(badCloses)
      ensures fd !in old(open) ==> open == old(open) && log == old(log) && badCloses == old(badCloses) + 1
    {
      if fd in open {
        var id := open[fd];
        CloseNext(log, next, open, fd);
        log := log + [Closed(id)];
        open := open - {fd};
      } else {
        badCloses := badCloses + 1;
      }
    }

    /** `socket_recv_until_null_reached`: a buffer with a NUL in its first 64 characters. */
    method RecvUntilNull(fd: int) returns (rc: ReturnCode, buff: string)
      requires Valid() && fd in open
      modifies this`log, this`fails
      ensures Valid() && |buff| == 512 && fails == old(fails) + if rc == OK then 0 else 1
      ensures rc == OK ==> '\0' in buff[..MAX_HANDLE_RSP] && log == old(log) + [Got(open[fd], CString(buff))]
      ensures rc != OK ==> rc == FAILURE && log == old(log)
    {
      buff := seq(512, i => '\0');
      rc := FAILURE;
      if * {
        var text: string := *;
        if |text| < MAX_HANDLE_RSP {
          buff := text + seq(512 - |text|, i => '\0');
          assert buff[..MAX_HANDLE_RSP][MAX_HANDLE_RSP - 1] == '\0';
          rc := OK;
          OtherNext(log, next, open, Got(open[fd], CString(buff)));
          log := log + [Got(open[fd], CString(buff))];
        }
      }
      if rc != OK { fails := fails + 1; }
    }

    /** `socket_send_all` of one message, which is logged when it went out */
    method SendAll(fd: int, e: Event) returns (rc: ReturnCode)
      requires Valid() && fd in open && (e.Sent? || e.Welcomed?)
      modifies this`log, this`fails
      ensures Valid() && fails == old(fails) + if rc == OK then 0 else 1
      ensures rc == OK ==> log == old(log) + [e]
      ensures rc != OK ==> rc == FAILURE && log == old(log)
    {
      rc := FAILURE;
      if * {
        rc := OK;
        OtherNext(log, next, open, e);
        log := log + [e];
      } else {
        fails := fails + 1;
      }
    }

    method Serve()
      requires Valid() && Admitted(log)
      modifies this`log
      ensures Valid() && log == old(log) + [Served]
    {
      OtherNext(log, next, open, Served);
      log := log + [Served];
    }
  }

  /** The system can always number another descriptor. */
  lemma FreeDescriptor(used: set<int>) returns (fd: int)
    ensures fd >= 0 && fd !in used
    ensures forall x :: x in used ==> x < fd
    decreases used
  {
    if x: int :| x in used {
      var k := FreeDescriptor(used - {x});
      fd := if x < k then k else x + 1;
      forall y | y in used
        ensures y < fd
      {
        if y != x { assert y in used - {x}; }
      }
    } else {
      fd := 0;
    }
  }

  /** Descriptor `fd` is the connection `id`. */
  predicate Connects(open: map<int, nat>, fd: int, id: nat) {
    fd != INVALID_SOCKET && fd in open && open[fd] == id
  }

  /** `CLIENT_CONN` */
  class ClientConn {
    var ctrl: int
    var mgmt: int
    var mgmtRsp: int
    var h2tData: int
    var t2hData: int

    constructor ()
      ensures Unconnected()
    {
      ctrl, mgmt, mgmtRsp := INVALID_SOCKET, INVALID_SOCKET, INVALID_SOCKET;
      h2tData, t2hData := INVALID_SOCKET, INVALID_SOCKET;
    }

    /** `CLIENT_CONN_default` */
    ghost predicate Unconnected()
      reads this
    {
      ctrl == mgmt == mgmtRsp == h2tData == t2hData == INVALID_SOCKET
    }

    ghost function Sockets(): seq<int>
      reads this
    {
      [ctrl, mgmt, mgmtRsp, h2tData, t2hData]
    }
  }

  /** The descriptors of `socks` that are not INVALID_SOCKET are distinct and are
      exactly the open ones. */
  ghost predicate Owns(socks: seq<int>, open: set<int>) {
    if socks == [] then open == {}
    else if socks[0] == INVALID_SOCKET then Owns(socks[1..], open)
    else socks[0] in open && Owns(socks[1..], open - {socks[0]})
  }

  lemma {:induction false} OwnsNext(socks: seq<int>, open: set<int>, fd: int, after: set<int>)
    requires Owns(socks, open)
    requires if fd == INVALID_SOCKET then after == open else fd !in open && after == open + {fd}
    ensures Owns(socks + [fd], after)
  {
    var all := socks + [fd];
    if socks == [] {
      assert all[1..] == [] && after - {fd} == {};
    } else {
      assert all[1..] == socks[1..] + [fd];
      if socks[0] == INVALID_SOCKET {
        OwnsNext(socks[1..], open, fd, after);
      } else {
        OwnsNext(socks[1..], open - {socks[0]}, fd, after - {socks[0]});
      }
    }
  }

  lemma {:induction false} OwnsNone(socks: seq<int>)
    requires forall i :: 0 <= i < |socks| ==> socks[i] == INVALID_SOCKET
    ensures Owns(socks, {})
  {
    if socks == [] {
    } else {
      OwnsNone(socks[1..]);
    }
  }

  /** Only the first socket is connected. */
  lemma OwnsRest(socks: seq<int>, open: set<int>)
    requires socks != [] && Owns([socks[0]], open)
    requires forall i :: 1 <= i < |socks| ==> socks[i] == INVALID_SOCKET
    ensures Owns(socks, open)
  {
    OwnsNone(socks[1..]);
    assert [socks[0]][1..] == [];
    if socks[0] != INVALID_SOCKET {
      assert open - {socks[0]} == {};
    }
  }
}

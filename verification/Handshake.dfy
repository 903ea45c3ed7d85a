/** `connect_client`, `close_client_conn`, `reject_client` and the client loop
    of `server_main`. */
module Handshake {
  import opened Messages
  import opened Connections
  import opened Sockets

  lemma {:induction false} DecimalShort(n: nat, k: nat)
    requires k > 0 && n < Pow10(k)
    ensures |Decimal(n)| <= k
    decreases n
  {
    if n < 10 {
    } else {
      DecimalShort(n / 10, k - 1);
    }
  }

  function Pow10(k: nat): nat { if k == 0 then 1 else 10 * Pow10(k - 1) }

  /** `rand()` values fit ten digits. */
  const RAND_MAX: nat := 0x7FFF_FFFF

  lemma {:induction false} CStringOf(text: string, rest: string)
    requires '\0' !in text
    ensures CString(text + ['\0'] + rest) == text
  {
    var b := text + ['\0'] + rest;
    if text == [] {
    } else {
      assert text[0] in text && b[1..] == text[1..] + ['\0'] + rest;
      CStringOf(text[1..], rest);
    }
  }

  /** Socket names fit the message buffers. */
  predicate IsName(name: string) { |name| <= 64 && '\0' !in name }

  lemma NamesFit()
    ensures IsName(CONTROL) && IsName(MANAGEMENT) && IsName(MANAGEMENT_RSP) && IsName(H2T) && IsName(T2H)
  {
  }

  lemma ExpectedFits(name: string, handle: nat)
    requires IsName(name) && handle <= RAND_MAX
    ensures |Expected(name, handle)| < 511 && '\0' !in Expected(name, handle)
  {
    DecimalShort(handle, 10);
    assert forall c :: c in Decimal(handle) ==> Digit(c);
    assert '\0' !in name + " " + HANDLE_MSG;
  }

  /** `generate_expected_handle_message` into the 512-byte control buffer */
  method GenerateExpected(name: string, handle: nat) returns (buff: string)
    requires IsName(name) && handle <= RAND_MAX
    ensures |buff| == 512 && CString(buff) == Expected(name, handle)
  {
    ExpectedFits(name, handle);
    var text := Expected(name, handle);
    buff := text + ['\0'] + seq(511 - |text|, i => '\0');
    CStringOf(text, seq(511 - |text|, i => '\0'));
  }

  /** The acknowledgement test both connect functions make. */
  method Acknowledges(rx: string, name: string, handle: nat) returns (ok: bool)
    requires |rx| == 512 && '\0' in rx[..MAX_HANDLE_RSP] && IsName(name) && handle <= RAND_MAX
    ensures ok <==> CString(rx) == Expected(name, handle)
  {
    var tx := GenerateExpected(name, handle);
    StrncmpIsEquality(rx, tx, MAX_HANDLE_RSP);
    ok := StrncmpEqual(rx, tx, MAX_HANDLE_RSP);
  }

  /** Two parts of a log are fixed exactly when the whole is. */
  lemma SplitLog(before: seq<Event>, middle: seq<Event>, log: seq<Event>, a: seq<Event>, b: seq<Event>)
    requires before <= middle <= log && |middle| <= |before| + |a| && |log| <= |middle| + |b|
    ensures log == before + (a + b) <==> middle == before + a && log == middle + b
  {
    if log == before + (a + b) {
      assert |middle| == |before| + |a|;
      assert middle == log[..|middle|] == before + a;
      assert log[|middle|..] == b;
    }
  }

  /** `socket_send_all` of a message, with what it means for the handshake. */
  method Say(net: Net, fd: int, e: Event, ghost base: nat, ghost handle: nat) returns (rc: ReturnCode)
    requires net.Valid() && fd in net.open && (e.Sent? || e.Welcomed?)
    modifies net`log, net`fails
    ensures net.Valid() && (rc == OK || rc == FAILURE)
    ensures net.log == if rc == OK then old(net.log) + [e] else old(net.log)
    ensures net.fails == old(net.fails) + if rc == OK then 0 else 1
    ensures net.Troubles(base, handle) == old(net.Troubles(base, handle)) + if rc == OK then 0 else 1
  {
    rc := net.SendAll(fd, e);
    WrongsNext(old(net.log), e, base, handle);
  }

  /** The receive of an acknowledgement and its comparison. */
  method Hear(net: Net, fd: int, handle: nat, name: string, ghost base: nat)
    returns (rc: ReturnCode, ok: bool, ghost text: string)
    requires net.Valid() && fd in net.open && IsName(name) && handle <= RAND_MAX
    requires base <= net.open[fd] < base + 5 && name == SOCKET_NAMES[net.open[fd] - base]
    modifies net`log, net`fails
    ensures net.Valid() && (rc == OK || (rc == FAILURE && !ok))
    ensures ok ==> text == Expected(name, handle)
    ensures net.log == if rc == OK then old(net.log) + [Got(net.open[fd], text)] else old(net.log)
    ensures net.fails == old(net.fails) + if rc == OK then 0 else 1
    ensures net.Troubles(base, handle) == old(net.Troubles(base, handle)) + if ok then 0 else 1
    ensures rc == OK && !ok ==> text != Expected(name, handle)
  {
    var rx;
    ok := false;
    rc, rx := net.RecvUntilNull(fd);
    text := CString(rx);
    if rc == OK {
      WrongsNext(old(net.log), Got(net.open[fd], text), base, handle);
      ok := Acknowledges(rx, name, handle);
    }
  }

  /** The receive, comparison and reply of either connect function. It succeeds
      exactly when every call does and the text is the expected one. */
  method Exchange(net: Net, fd: int, handle: nat, name: string, ghost base: nat) returns (rc: ReturnCode)
    requires net.Valid() && fd in net.open && IsName(name) && handle <= RAND_MAX
    requires base <= net.open[fd] < base + 5 && name == SOCKET_NAMES[net.open[fd] - base]
    modifies net`log, net`fails
    ensures net.Valid() && (rc == OK || rc == FAILURE)
    ensures rc == OK <==> net.log == old(net.log) + [Got(net.open[fd], Expected(name, handle)), Sent(net.open[fd], READY)]
    ensures old(net.log) <= net.log && |net.log| <= |old(net.log)| + 2
    ensures rc == FAILURE && net.fails == old(net.fails) ==>
              net.log != [] && net.log[|net.log| - 1] == Sent(net.open[fd], "NOT_READY")
    ensures net.fails >= old(net.fails) && net.Troubles(base, handle) >= old(net.Troubles(base, handle))
    ensures rc == OK <==> net.Troubles(base, handle) == old(net.Troubles(base, handle))
  {
    var ok;
    ghost var text;
    rc, ok, text := Hear(net, fd, handle, name, base);
    if rc == OK {
      var sent := Say(net, fd, Sent(net.open[fd], if ok then READY else NOT_READY), base, handle);
      rc := if ok then sent else FAILURE;
    }
  }

  /** `connect_client_socket`; `socks` are the client's sockets so far, `base` is
      the client's first connection. */
  method ConnectClientSocket(net: Net, handle: nat, name: string, ghost socks: seq<int>, ghost base: nat)
    returns (rc: ReturnCode, fd: int)
    requires net.Valid() && IsName(name) && handle <= RAND_MAX && Owns(socks, net.open.Keys)
    requires base <= net.next < base + 5 && name == SOCKET_NAMES[net.next - base]
    modifies net
    ensures net.Valid() && net.badCloses == old(net.badCloses)
    ensures Owns(socks + [fd], net.open.Keys)
    ensures net.open == old(net.open) || (fd !in old(net.open) && net.open == old(net.open)[fd := old(net.next)])
    ensures rc == OK ==> Connects(net.open, fd, old(net.next)) && net.next == old(net.next) + 1
    ensures rc == OK <==> net.log == old(net.log) + Joined(old(net.next), name, handle)
    ensures old(net.log) <= net.log && |net.log| <= |old(net.log)| + 3
    ensures rc != OK ==> rc == FAILURE
    ensures net.fails >= old(net.fails) && net.Troubles(base, handle) >= old(net.Troubles(base, handle))
    ensures rc == OK <==> net.Troubles(base, handle) == old(net.Troubles(base, handle))
  {
    rc := FAILURE;
    fd := net.Accept();
    OwnsNext(socks, old(net.open.Keys), fd, net.open.Keys);
    if fd != INVALID_SOCKET {
      WrongsNext(old(net.log), Accepted(old(net.next)), base, handle);
      var noDelay := net.SetNoDelay(fd);
      if noDelay {
        rc := Exchange(net, fd, handle, name, base);
      }
    }
  }

  /** The part of `connect_client` about the control socket. */
  method ConnectControl(net: Net, handle: nat) returns (rc: ReturnCode, fd: int)
    requires net.Valid() && handle <= RAND_MAX && net.open == map[]
    modifies net
    ensures net.Valid() && net.badCloses == old(net.badCloses)
    ensures Owns([fd], net.open.Keys)
    ensures if fd == INVALID_SOCKET then net.fails > old(net.fails) else Connects(net.open, fd, old(net.next))
    ensures rc == OK ==> Connects(net.open, fd, old(net.next)) && net.next == old(net.next) + 1
    ensures rc == OK ==> net.open == map[fd := old(net.next)]
    ensures rc == OK <==> net.log == old(net.log) + Greeted(old(net.next), handle)
    ensures old(net.log) <= net.log && |net.log| <= |old(net.log)| + 4
    ensures rc != OK ==> rc == FAILURE
    ensures net.fails >= old(net.fails) && net.Troubles(old(net.next), handle) >= old(net.Troubles(net.next, handle))
    ensures rc == OK <==> net.Troubles(old(net.next), handle) == old(net.Troubles(net.next, handle))
  {
    NamesFit();
    ghost var base := net.next;
    fd := net.Accept();
    OwnsNext([], {}, fd, net.open.Keys);
    if fd == INVALID_SOCKET {
      return FAILURE, fd;
    }
    WrongsNext(old(net.log), Accepted(base), base, handle);
    rc := Say(net, fd, Welcomed(net.open[fd], handle), base, handle);
    if rc == OK {
      rc := Exchange(net, fd, handle, CONTROL, base);
    }
  }

  /** One guarded call of `connect_client`: the first failure leaves the
      remaining sockets unconnected. */
  method ConnectNext(net: Net, handle: nat, name: string, soFar: ReturnCode, ghost socks: seq<int>, ghost base: nat)
    returns (rc: ReturnCode, fd: int)
    requires net.Valid() && IsName(name) && handle <= RAND_MAX && Owns(socks, net.open.Keys)
    requires soFar == OK ==> base <= net.next < base + 5 && name == SOCKET_NAMES[net.next - base]
    requires soFar == OK || soFar == FAILURE
    modifies net
    ensures net.Valid() && net.badCloses == old(net.badCloses)
    ensures Owns(socks + [fd], net.open.Keys)
    ensures net.open == old(net.open) || (fd !in old(net.open) && net.open == old(net.open)[fd := old(net.next)])
    ensures rc == OK ==> soFar == OK && Connects(net.open, fd, old(net.next)) && net.next == old(net.next) + 1
    ensures rc == OK <==> net.log == old(net.log) + Joined(old(net.next), name, handle)
    ensures old(net.log) <= net.log && |net.log| <= |old(net.log)| + (if soFar == OK then 3 else 0)
    ensures rc != OK ==> rc == FAILURE
    ensures net.fails >= old(net.fails) && net.Troubles(base, handle) >= old(net.Troubles(base, handle))
    ensures rc == OK <==> soFar == OK && net.Troubles(base, handle) == old(net.Troubles(base, handle))
  {
    if soFar == OK {
      rc, fd := ConnectClientSocket(net, handle, name, socks, base);
    } else {
      rc, fd := soFar, INVALID_SOCKET;
      OwnsNext(socks, net.open.Keys, fd, net.open.Keys);
    }
  }

  function JoinedTwo(id: nat, first: string, second: string, handle: nat): (r: seq<Event>)
    ensures |r| == 6
  {
    Joined(id, first, handle) + Joined(id + 1, second, handle)
  }

  /** Two guarded calls in a row. */
  method ConnectPair(net: Net, handle: nat, first: string, second: string, soFar: ReturnCode, ghost socks: seq<int>,
                     ghost base: nat)
    returns (rc: ReturnCode, fd1: int, fd2: int)
    requires net.Valid() && IsName(first) && IsName(second) && handle <= RAND_MAX && Owns(socks, net.open.Keys)
    requires soFar == OK ==> base <= net.next < base + 4
    requires soFar == OK ==> first == SOCKET_NAMES[net.next - base] && second == SOCKET_NAMES[net.next - base + 1]
    requires soFar == OK || soFar == FAILURE
    modifies net
    ensures net.Valid() && net.badCloses == old(net.badCloses)
    ensures Owns(socks + [fd1, fd2], net.open.Keys)
    ensures forall fd :: fd in old(net.open) ==> fd in net.open && net.open[fd] == old(net.open)[fd]
    ensures rc == OK ==> soFar == OK && net.next == old(net.next) + 2
    ensures rc == OK ==> Connects(net.open, fd1, old(net.next)) && Connects(net.open, fd2, old(net.next) + 1)
    ensures rc == OK <==> net.log == old(net.log) + JoinedTwo(old(net.next), first, second, handle)
    ensures old(net.log) <= net.log && |net.log| <= |old(net.log)| + (if soFar == OK then 6 else 0)
    ensures rc != OK ==> rc == FAILURE
    ensures net.fails >= old(net.fails) && net.Troubles(base, handle) >= old(net.Troubles(base, handle))
    ensures rc == OK <==> soFar == OK && net.Troubles(base, handle) == old(net.Troubles(base, handle))
  {
    ghost var before, id := net.log, net.next;
    rc, fd1 := ConnectNext(net, handle, first, soFar, socks, base);
    ghost var middle := net.log;
    rc, fd2 := ConnectNext(net, handle, second, rc, socks + [fd1], base);
    assert socks + [fd1] + [fd2] == socks + [fd1, fd2];
    SplitLog(before, middle, net.log, Joined(id, first, handle), Joined(id + 1, second, handle));
  }

  /** The part of `connect_client` about the other four sockets: which connection
      ends up in which field. */
  method ConnectData(net: Net, conn: ClientConn, handle: nat, ghost base: nat) returns (rc: ReturnCode)
    requires net.Valid() && Owns([conn.ctrl], net.open.Keys) && handle <= RAND_MAX && net.next == base + 1
    modifies net, conn`mgmt, conn`mgmtRsp, conn`h2tData, conn`t2hData
    ensures net.Valid() && net.badCloses == old(net.badCloses)
    ensures Owns(conn.Sockets(), net.open.Keys)
    ensures conn.ctrl in old(net.open) ==> conn.ctrl in net.open && net.open[conn.ctrl] == old(net.open)[conn.ctrl]
    ensures rc == OK <==> net.log == old(net.log) + JoinedAll(old(net.next), handle)
    ensures old(net.log) <= net.log && |net.log| <= |old(net.log)| + 12
    ensures rc == OK ==> net.next == old(net.next) + 4
    ensures rc == OK ==> Connects(net.open, conn.mgmt, base + 1) && Connects(net.open, conn.mgmtRsp, base + 2)
    ensures rc == OK ==> Connects(net.open, conn.h2tData, base + 3) && Connects(net.open, conn.t2hData, base + 4)
    ensures rc != OK ==> rc == FAILURE
    ensures net.fails >= old(net.fails) && net.Troubles(base, handle) >= old(net.Troubles(base, handle))
    ensures rc == OK <==> net.Troubles(base, handle) == old(net.Troubles(base, handle))
  {
    NamesFit();
    ghost var id, socks, before := net.next, [conn.ctrl], net.log;
    rc, conn.mgmt, conn.mgmtRsp := ConnectPair(net, handle, MANAGEMENT, MANAGEMENT_RSP, OK, socks, base);
    socks := socks + [conn.mgmt, conn.mgmtRsp];
    ghost var middle := net.log;
    rc, conn.h2tData, conn.t2hData := ConnectPair(net, handle, H2T, T2H, rc, socks, base);
    socks := socks + [conn.h2tData, conn.t2hData];
    assert socks == conn.Sockets();
    var a, b := JoinedTwo(id, MANAGEMENT, MANAGEMENT_RSP, handle), JoinedTwo(id + 2, H2T, T2H, handle);
    assert JoinedAll(id, handle) == a + b;
    SplitLog(before, middle, net.log, a, b);
  }

  /** The five fields of a connected client, in the order of its connections. */
  ghost predicate Wired(net: Net, conn: ClientConn, base: nat)
    reads net, conn
  {
    && Connects(net.open, conn.ctrl, base)
    && Connects(net.open, conn.mgmt, base + 1) && Connects(net.open, conn.mgmtRsp, base + 2)
    && Connects(net.open, conn.h2tData, base + 3) && Connects(net.open, conn.t2hData, base + 4)
  }

  /** `connect_client` from the first accept to the last acknowledgement. */
  method ConnectAll(net: Net, conn: ClientConn, handle: nat) returns (rc: ReturnCode)
    requires net.Valid() && net.open == map[] && handle <= RAND_MAX
    requires conn.Unconnected()
    modifies net, conn
    ensures net.Valid() && net.badCloses == old(net.badCloses) && (rc == OK || rc == FAILURE)
    ensures Owns(conn.Sockets(), net.open.Keys)
    ensures if conn.ctrl == INVALID_SOCKET then net.fails > old(net.fails) else Connects(net.open, conn.ctrl, old(net.next))
    ensures rc == OK ==> Wired(net, conn, old(net.next)) && net.next == old(net.next) + 5
    ensures rc == OK <==> net.log == old(net.log) + (Greeted(old(net.next), handle) + JoinedAll(old(net.next) + 1, handle))
    ensures old(net.log) <= net.log && |net.log| <= |old(net.log)| + 16
    ensures net.fails >= old(net.fails) && net.Troubles(old(net.next), handle) >= old(net.Troubles(net.next, handle))
    ensures rc == OK <==> net.Troubles(old(net.next), handle) == old(net.Troubles(net.next, handle))
  {
    ghost var socks, before, id := conn.Sockets(), net.log, net.next;
    OwnsNone(socks);
    assert net.open.Keys == {};
    rc, conn.ctrl := ConnectControl(net, handle);
    ghost var greeted := net.log;
    if rc == OK {
      rc := ConnectData(net, conn, handle, id);
    } else {
      OwnsRest(conn.Sockets(), net.open.Keys);
    }
    SplitLog(before, greeted, net.log, Greeted(id, handle), JoinedAll(id + 1, handle));
  }

  /** `connect_client`; `initOk` is the driver's answer to its initialisation. It
      succeeds exactly when the driver is ready, every call succeeds and every
      text is the expected one. */
  method ConnectClient(net: Net, conn: ClientConn, handle: nat, initOk: bool) returns (rc: ReturnCode)
    requires net.Valid() && net.open == map[] && handle <= RAND_MAX
    requires conn.Unconnected()
    modifies net, conn
    ensures net.Valid() && net.badCloses == old(net.badCloses)
    ensures Owns(conn.Sockets(), net.open.Keys)
    ensures rc == INIT_ERR <==> !initOk
    ensures rc == FAILURE && net.fails == old(net.fails) ==>
              net.log != [] && net.log[|net.log| - 1] == Sent(old(net.next), "NOT_READY")
    ensures net.Troubles(old(net.next), handle) >= old(net.Troubles(net.next, handle))
    ensures rc == INIT_ERR ==> net.log == old(net.log) && net.next == old(net.next) && net.fails == old(net.fails)
    ensures rc == OK <==> net.log == old(net.log) + Session(old(net.next), handle)
    ensures rc == OK ==> Wired(net, conn, old(net.next)) && net.next == old(net.next) + 5
    ensures old(net.log) <= net.log && net.fails >= old(net.fails) && (rc == OK ==> net.fails == old(net.fails))
    ensures rc == OK <==> initOk && net.Troubles(old(net.next), handle) == old(net.Troubles(net.next, handle))
  {
    ghost var before, id := net.log, net.next;
    if !initOk {
      OwnsNone(conn.Sockets());
      assert net.open.Keys == {};
      return INIT_ERR;
    }
    rc := ConnectAll(net, conn, handle);
    assert conn.ctrl == conn.Sockets()[0];
    rc := LastReply(net, conn, rc, id, handle, before);
    WrongsGrow(before, net.log, id, handle);
  }

  /** The last message of `connect_client` on the control socket. */
  method LastReply(net: Net, conn: ClientConn, soFar: ReturnCode, ghost id: nat, ghost handle: nat, ghost before: seq<Event>)
    returns (rc: ReturnCode)
    requires net.Valid() && (soFar == OK || soFar == FAILURE) && before <= net.log && |net.log| <= |before| + 16
    requires conn.ctrl == INVALID_SOCKET ==> soFar == FAILURE
    requires conn.ctrl != INVALID_SOCKET ==> Connects(net.open, conn.ctrl, id)
    requires soFar == OK <==> net.log == before + (Greeted(id, handle) + JoinedAll(id + 1, handle))
    modifies net`log, net`fails
    ensures net.Valid() && (rc == OK || rc == FAILURE) && before <= net.log && net.fails >= old(net.fails)
    ensures rc == OK <==> net.log == before + Session(id, handle)
    ensures rc == OK <==> soFar == OK && net.Troubles(id, handle) == old(net.Troubles(id, handle))
    ensures net.Troubles(id, handle) >= old(net.Troubles(id, handle))
    ensures rc == OK ==> net.fails == old(net.fails)
    ensures rc == FAILURE && conn.ctrl != INVALID_SOCKET && net.fails == old(net.fails) ==>
              net.log != [] && net.log[|net.log| - 1] == Sent(id, "NOT_READY")
  {
    rc := FAILURE;
    ghost var joined := net.log;
    if conn.ctrl != INVALID_SOCKET {
      var sent := Say(net, conn.ctrl, Sent(net.open[conn.ctrl], if soFar == OK then READY else NOT_READY), id, handle);
      rc := if soFar == OK then sent else FAILURE;
    }
    SplitLog(before, joined, net.log, Greeted(id, handle) + JoinedAll(id + 1, handle), [Sent(id, READY)]);
  }

  /** One clause of `close_client_conn`; `others` are the sockets after this one. */
  method CloseIfOpen(net: Net, fd: int, ghost others: seq<int>)
    requires net.Valid() && Owns([fd] + others, net.open.Keys)
    modifies net
    ensures net.Valid() && net.badCloses == old(net.badCloses) && net.next == old(net.next) && old(net.log) <= net.log
    ensures net.fails == old(net.fails)
    ensures Owns(others, net.open.Keys)
  {
    assert ([fd] + others)[1..] == others;
    if fd != INVALID_SOCKET {
      net.Close(fd);
      assert net.open.Keys == old(net.open.Keys) - {fd};
    }
  }

  /** `close_client_conn` */
  method CloseClientConn(net: Net, conn: ClientConn)
    requires net.Valid() && Owns(conn.Sockets(), net.open.Keys)
    modifies net
    ensures net.Valid() && net.open == map[] && net.badCloses == old(net.badCloses)
    ensures net.next == old(net.next) && net.fails == old(net.fails) && old(net.log) <= net.log
  {
    CloseIfOpen(net, conn.ctrl, [conn.mgmt, conn.mgmtRsp, conn.h2tData, conn.t2hData]);
    CloseIfOpen(net, conn.mgmt, [conn.mgmtRsp, conn.h2tData, conn.t2hData]);
    CloseIfOpen(net, conn.mgmtRsp, [conn.h2tData, conn.t2hData]);
    CloseIfOpen(net, conn.h2tData, [conn.t2hData]);
    CloseIfOpen(net, conn.t2hData, []);
    assert net.open.Keys == {};
  }

  /** `reject_client`: unless a call fails, one more connection was accepted, told
      so and closed. */
  method RejectClient(net: Net)
    requires net.Valid()
    modifies net
    ensures net.Valid() && net.open == old(net.open) && net.badCloses == old(net.badCloses)
    ensures old(net.log) <= net.log && net.fails >= old(net.fails)
    ensures net.fails == old(net.fails) ==>
              var id := old(net.next);
              net.next == id + 1 && net.log == old(net.log) + [Accepted(id), Sent(id, "SERVER_BUSY"), Closed(id)]
  {
    var fd := net.Accept();
    if fd != INVALID_SOCKET {
      var id := net.open[fd];
      var sent := net.SendAll(fd, Sent(id, REJECT));
      net.Close(fd);
    }
  }

  /** What one `select` of the client loop reports: it failed or found an
      exception, another client knocks, or a later call ends the session. */
  datatype Wake = Wake(broken: bool, knock: bool, over: bool)

  /** How many other clients knock before the session ends. */
  function Knocks(wakes: seq<Wake>): nat {
    if wakes == [] || wakes[0].broken then 0
    else (if wakes[0].knock then 1 else 0) + if wakes[0].over then 0 else Knocks(wakes[1..])
  }

  /** The control skeleton of `handle_client`: further clients are turned away,
      everything else may end the loop. */
  method HandleClient(net: Net, wakes: seq<Wake>)
    requires net.Valid() && Admitted(net.log)
    modifies net
    ensures net.Valid() && net.open == old(net.open) && net.badCloses == old(net.badCloses)
    ensures old(net.log) + [Served] <= net.log && net.fails >= old(net.fails)
    ensures net.fails == old(net.fails) ==> net.next == old(net.next) + Knocks(wakes)
  {
    net.Serve();
    ghost var rejected := 0;
    for i := 0 to |wakes|
      invariant net.Valid() && net.open == old(net.open) && net.badCloses == old(net.badCloses)
      invariant old(net.log) + [Served] <= net.log && net.fails >= old(net.fails)
      invariant net.fails == old(net.fails) ==> net.next == old(net.next) + rejected
      invariant Knocks(wakes) == rejected + Knocks(wakes[i..])
    {
      assert wakes[i..][1..] == wakes[i + 1..];
      if wakes[i].broken { break; }
      if wakes[i].knock {
        RejectClient(net);
        rejected := rejected + 1;
      }
      if wakes[i].over { break; }
    }
  }

  /** What one client brings: its random handle, the driver's answer and what
      happens while it is served. */
  datatype Visit = Visit(handle: nat, initOk: bool, wakes: seq<Wake>)

  /** One iteration of the `server_main` loop: every connection accepted in it,
      for the client or to reject another, is closed exactly once, on every
      path; the client is served exactly after a whole handshake. */
  method ServeOne(net: Net, v: Visit) returns (rc: ReturnCode)
    requires net.Valid() && net.open == map[] && net.badCloses == 0 && v.handle <= RAND_MAX
    modifies net
    ensures net.Valid() && net.open == map[] && net.badCloses == 0
    ensures old(net.log) <= net.log && net.fails >= old(net.fails)
    ensures rc == INIT_ERR <==> !v.initOk
    ensures rc == OK ==> old(net.log) + Session(old(net.next), v.handle) + [Served] <= net.log
    ensures rc == OK && net.fails == old(net.fails) ==> net.next == old(net.next) + 5 + Knocks(v.wakes)
    ensures rc == FAILURE ==>
              net.fails > old(net.fails)
              || exists k :: |old(net.log)| <= k < |net.log| && Wrong(net.log[k], old(net.next), v.handle)
  {
    var conn := new ClientConn();
    ghost var before, id, fails := net.log, net.next, net.fails;
    rc := ConnectClient(net, conn, v.handle, v.initOk);
    ghost var connected := net.log;
    if rc == OK {
      assert net.log[|net.log| - 17..] == Session(id, v.handle);
      HandleClient(net, v.wakes);
    } else if rc == FAILURE && net.fails == fails {
      WrongSince(before, connected, id, v.handle);
    }
    CloseClientConn(net, conn);
  }

  lemma {:induction false} WrongsGrow(before: seq<Event>, log: seq<Event>, base: nat, handle: nat)
    requires before <= log
    ensures Wrongs(before, base, handle) <= Wrongs(log, base, handle)
    decreases |log|
  {
    if log == before {
    } else {
      assert before <= log[..|log| - 1];
      WrongsGrow(before, log[..|log| - 1], base, handle);
    }
  }

  /** More wrong texts in a longer log are in its new part. */
  lemma {:induction false} WrongSince(before: seq<Event>, log: seq<Event>, base: nat, handle: nat)
    requires before <= log && Wrongs(log, base, handle) > Wrongs(before, base, handle)
    ensures exists k :: |before| <= k < |log| && Wrong(log[k], base, handle)
    decreases |log|
  {
    var n := |log| - 1;
    if log == before {
    } else if !Wrong(log[n], base, handle) {
      assert before <= log[..n];
      WrongSince(before, log[..n], base, handle);
    }
  }

  /** How often the client loop was entered. */
  function Services(log: seq<Event>): nat {
    if log == [] then 0 else Services(log[..|log| - 1]) + if log[|log| - 1].Served? then 1 else 0
  }

  lemma {:induction false} ServicesGrow(before: seq<Event>, log: seq<Event>)
    requires before <= log
    ensures Services(before) <= Services(log)
    decreases |log|
  {
    if log == before {
    } else {
      assert before <= log[..|log| - 1];
      ServicesGrow(before, log[..|log| - 1]);
    }
  }

  lemma OneService(before: seq<Event>, more: seq<Event>, log: seq<Event>)
    requires before + more + [Served] <= log
    ensures Services(before) + 1 <= Services(log)
  {
    var all := before + more + [Served];
    assert all[..|all| - 1] == before + more;
    ServicesGrow(before, before + more);
    ServicesGrow(all, log);
  }

  function Oks(codes: seq<ReturnCode>): nat {
    if codes == [] then 0 else Oks(codes[..|codes| - 1]) + if codes[|codes| - 1] == OK then 1 else 0
  }

  lemma OksNext(codes: seq<ReturnCode>, rc: ReturnCode)
    ensures Oks(codes + [rc]) == Oks(codes) + if rc == OK then 1 else 0
  {
    assert (codes + [rc])[..|codes|] == codes;
  }

  /** Some client has sent a wrong text. */
  ghost predicate SomeWrong(log: seq<Event>, visits: seq<Visit>) {
    exists k, base: nat, i :: 0 <= k < |log| && 0 <= i < |visits| && Wrong(log[k], base, visits[i].handle)
  }

  lemma StillWrong(before: seq<Event>, log: seq<Event>, visits: seq<Visit>, i: nat, base: nat)
    requires before <= log && i < |visits|
    requires SomeWrong(before, visits) || exists k :: |before| <= k < |log| && Wrong(log[k], base, visits[i].handle)
    ensures SomeWrong(log, visits)
  {
    if SomeWrong(before, visits) {
      var k, b: nat, j :| 0 <= k < |before| && 0 <= j < |visits| && Wrong(before[k], b, visits[j].handle);
      assert Wrong(log[k], b, visits[j].handle);
    } else {
      var k :| |before| <= k < |log| && Wrong(log[k], base, visits[i].handle);
      assert Wrong(log[k], base, visits[i].handle);
    }
  }

  /** Every OK stands for a client that was served, and any FAILURE for a failed
      call or a wrong text. */
  ghost predicate Accounts(codes: seq<ReturnCode>, log: seq<Event>, failed: bool, visits: seq<Visit>) {
    Oks(codes) <= Services(log) && (FAILURE in codes ==> failed || SomeWrong(log, visits))
  }

  lemma AccountsNext(codes: seq<ReturnCode>, rc: ReturnCode, before: seq<Event>, log: seq<Event>, failedBefore: bool,
                     failed: bool, visits: seq<Visit>, i: nat, id: nat)
    requires Accounts(codes, before, failedBefore, visits) && before <= log && i < |visits| && (failedBefore ==> failed)
    requires rc == OK ==> before + Session(id, visits[i].handle) + [Served] <= log
    requires rc == FAILURE ==> failed || exists k :: |before| <= k < |log| && Wrong(log[k], id, visits[i].handle)
    ensures Accounts(codes + [rc], log, failed, visits)
  {
    OksNext(codes, rc);
    if rc == OK { OneService(before, Session(id, visits[i].handle), log); } else { ServicesGrow(before, log); }
    if !failed && (FAILURE in codes || rc == FAILURE) { StillWrong(before, log, visits, i, id); }
  }

  /** One client and what its code stands for. */
  method ServeNext(net: Net, visits: seq<Visit>, i: nat, ghost codes: seq<ReturnCode>, ghost fails: nat)
    returns (rc: ReturnCode)
    requires net.Valid() && net.open == map[] && net.badCloses == 0 && net.fails >= fails
    requires i < |visits| && forall v :: v in visits ==> v.handle <= RAND_MAX
    requires Accounts(codes, net.log, net.fails > fails, visits)
    modifies net
    ensures net.Valid() && net.open == map[] && net.badCloses == 0 && net.fails >= fails
    ensures rc == INIT_ERR <==> !visits[i].initOk
    ensures Accounts(codes + [rc], net.log, net.fails > fails, visits)
  {
    assert visits[i] in visits;
    ghost var before, id, failed := net.log, net.next, net.fails > fails;
    rc := ServeOne(net, visits[i]);
    AccountsNext(codes, rc, before, net.log, failed, net.fails > fails, visits, i, id);
  }

  /** The driver refused exactly those of the first `n` clients that were told so. */
  predicate Answered(codes: seq<ReturnCode>, visits: seq<Visit>, n: nat)
    requires n <= |codes| && n <= |visits|
  {
    n == 0 || (Answered(codes, visits, n - 1) && (codes[n - 1] == INIT_ERR <==> !visits[n - 1].initOk))
  }

  lemma {:induction false} AnsweredSame(codes: seq<ReturnCode>, more: seq<ReturnCode>, visits: seq<Visit>, n: nat)
    requires n <= |codes| <= |more| && n <= |visits| && Answered(codes, visits, n)
    requires forall i :: 0 <= i < n ==> codes[i] == more[i]
    ensures Answered(more, visits, n)
    decreases n
  {
    if n == 0 {
    } else {
      AnsweredSame(codes, more, visits, n - 1);
    }
  }

  lemma {:induction false} AnsweredAt(codes: seq<ReturnCode>, visits: seq<Visit>, n: nat, i: nat)
    requires i < n <= |codes| && n <= |visits| && Answered(codes, visits, n)
    ensures codes[i] == INIT_ERR <==> !visits[i].initOk
    decreases n
  {
    if i == n - 1 {
    } else {
      AnsweredAt(codes, visits, n - 1, i);
    }
  }

  /** The loop of `server_main`: the return codes of the clients, in order. */
  method ServeAll(net: Net, visits: seq<Visit>, single: bool) returns (codes: seq<ReturnCode>)
    requires net.Valid() && net.open == map[] && net.badCloses == 0 && net.log == []
    requires visits != [] && forall v :: v in visits ==> v.handle <= RAND_MAX
    modifies net
    ensures net.Valid() && net.open == map[] && net.badCloses == 0
    ensures 0 < |codes| <= |visits| && Answered(codes, visits, |codes|)
    ensures |codes| == (if single then 1 else |visits|) || codes[|codes| - 1] == INIT_ERR
    ensures Accounts(codes, net.log, net.fails > old(net.fails), visits)
  {
    codes := [];
    var i := 0;
    while i < |visits|
      invariant net.Valid() && net.open == map[] && net.badCloses == 0 && net.fails >= old(net.fails)
      invariant |codes| == i <= |visits| && (single ==> i == 0)
      invariant Answered(codes, visits, i)
      invariant Accounts(codes, net.log, net.fails > old(net.fails), visits)
      decreases |visits| - i
    {
      var rc := ServeNext(net, visits, i, codes, old(net.fails));
      AnsweredSame(codes, codes + [rc], visits, i);
      codes := codes + [rc];
      if rc == INIT_ERR || single { break; }
      i := i + 1;
    }
  }

  /** `server_main` */
  method ServerMain(net: Net, visits: seq<Visit>, single: bool) returns (codes: seq<ReturnCode>)
    requires net.Valid() && net.open == map[] && net.badCloses == 0 && net.log == []
    requires visits != [] && forall v :: v in visits ==> v.handle <= RAND_MAX
    modifies net
    ensures net.Valid() && net.open == map[] && net.badCloses == 0
    ensures 0 < |codes| <= |visits| && forall i :: 0 <= i < |codes| ==> (codes[i] == INIT_ERR <==> !visits[i].initOk)
    ensures |codes| == (if single then 1 else |visits|) || codes[|codes| - 1] == INIT_ERR
    ensures Oks(codes) <= Services(net.log)
    ensures FAILURE in codes ==> net.fails > old(net.fails) || SomeWrong(net.log, visits)
    ensures forall id: nat ::
              multiset(net.log)[Accepted(id)] == multiset(net.log)[Closed(id)] == if id < net.next then 1 else 0
    ensures forall k :: 0 <= k < |net.log| && net.log[k].Served? ==>
              k >= 17 && exists id, h :: net.log[k - 17..k] == Session(id, h)
  {
    codes := ServeAll(net, visits, single);
    forall i | 0 <= i < |codes|
      ensures codes[i] == INIT_ERR <==> !visits[i].initOk
    {
      AnsweredAt(codes, visits, |codes|, i);
    }
    CleanLog(net.log, net.next);
  }

  lemma CleanLog(log: seq<Event>, next: nat)
    requires Consistent(log, next, map[])
    ensures forall id: nat :: multiset(log)[Accepted(id)] == multiset(log)[Closed(id)] == if id < next then 1 else 0
    ensures forall k :: 0 <= k < |log| && log[k].Served? ==>
              k >= 17 && exists id, h :: log[k - 17..k] == Session(id, h)
  {
    forall id: nat
      ensures multiset(log)[Accepted(id)] == multiset(log)[Closed(id)] == if id < next then 1 else 0
    {
      ConsistentCounts(log, next, map[], id);
    }
    forall k | 0 <= k < |log| && log[k].Served?
      ensures k >= 17 && exists id, h :: log[k - 17..k] == Session(id, h)
    {
      ServedAfterHandshake(log, next, map[], k);
    }
  }
}

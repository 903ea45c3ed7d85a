/** `process_h2t_data` and what it calls, on the server's buffers and counters.
    Each call is a run of the host-to-target link. */
module Server {
  import opened Words
  import opened Circular
  import opened Packets
  import opened DebugIp
  import opened H2tLink
  import opened H2tTheorems
  import opened H2tBounds
  import opened H2tSafety
  import opened H2tRuns
  import opened Sockets
  import opened Driver
  import opened Loopback

  class H2tServer {
    const driver: StDbgIp
    var h2tData: Socket
    const headerBuff: array<byte>
    const recvBuff: array<byte>
    const sendBuff: array<byte>
    var t2hData: Socket
    var h2tWaiting: bool
    var h2tCnt: nat

    /** `alloc_tcpip_recv_send_buffer` and the default connection state */
    constructor (d: StDbgIp, h2t: Socket, t2h: Socket)
      requires d.fpga.Valid()
      ensures driver == d && h2tData == h2t && t2hData == t2h && !h2tWaiting && h2tCnt == 0
      ensures recvBuff.Length == sendBuff.Length == d.fpga.c.span + 64
      ensures Allocated() && fresh(headerBuff) && fresh(recvBuff) && fresh(sendBuff)
    {
      driver, h2tData, t2hData, h2tWaiting, h2tCnt := d, h2t, t2h, false, 0;
      headerBuff := new byte[HEADER_BYTES];
      recvBuff := new byte[d.fpga.c.span + PACKET_HEADER_SIZE];
      sendBuff := new byte[d.fpga.c.span + PACKET_HEADER_SIZE];
    }

    predicate Allocated() {
      && headerBuff.Length == HEADER_BYTES && headerBuff != recvBuff && headerBuff != sendBuff && recvBuff != sendBuff
      && recvBuff.Length == sendBuff.Length == Config().span + PACKET_HEADER_SIZE
    }

    ghost predicate Valid()
      reads this, driver, driver.fpga, driver.chain, driver.cbuff, h2tData
    {
      driver.Valid() && h2tData.Valid() && Allocated() && h2tData != t2hData
    }

    function Config(): DebugIp.Config { driver.fpga.c }

    /** The state of the link when the server is at `pc`. */
    ghost function Abs(pc: Pc): State
      requires Valid()
      reads this, driver, driver.fpga, driver.chain, driver.cbuff, h2tData, headerBuff
    {
      State(Config(), h2tData.Received(), h2tData.recvFails, headerBuff[..], pc, h2tWaiting, h2tCnt, driver.Value(), driver.fpga.hw)
    }

    /** Between two calls. */
    ghost function Start(): Pc
      reads this
    {
      if h2tWaiting then Ready else Receiving(0)
    }

    /** What `connect_client` does to this state before the handshake: the
        counters and the driver start afresh, `h2t_waiting` and the header
        buffer do not. */
    method Connect(h2t: Socket, t2h: Socket)
      requires driver.fpga.Valid() && driver.chain.Length == MAX_DESCRIPTOR_DEPTH && Allocated()
      requires h2t.pos == 0 && h2t != t2h
      modifies this`h2tData, this`t2hData, this`h2tCnt, driver, driver.cbuff, driver.fpga`hw
      ensures Valid() && h2tData == h2t && t2hData == t2h
      ensures Initial(Abs(Start()), h2tWaiting)
    {
      h2tCnt := 0;
      driver.Init();
      h2tData, t2hData := h2t, t2h;
    }

    /** `update_curr_h2t_header` */
    method UpdateCurrH2tHeader() returns (rc: ReturnCode, ghost run: seq<Step>)
      requires Valid()
      modifies h2tData`pos, h2tData`recvFails, headerBuff
      ensures Valid() && (rc == OK || rc == FAILURE)
      ensures Exec(old(Abs(Start())), run) == Abs(if rc == OK then Ready else Closed)
      ensures !h2tWaiting ==> old(h2tData.pos) <= h2tData.pos <= old(h2tData.pos) + HEADER_BYTES
      ensures !h2tWaiting ==> (rc == OK <==> h2tData.pos == old(h2tData.pos) + HEADER_BYTES)
      ensures !h2tWaiting && rc == OK ==> h2tData.Received() == old(h2tData.Received()) + headerBuff[..]
      ensures h2tWaiting ==> rc == OK && h2tData.pos == old(h2tData.pos) && headerBuff[..] == old(headerBuff[..])
      ensures h2tData.recvFails == old(h2tData.recvFails) + if rc == OK then 0 else 1
    {
      run := [];
      rc := OK;
      if !h2tWaiting {
        ghost var s, before := Abs(Start()), h2tData.pos;
        rc := RecvAccumulate(h2tData, headerBuff, HEADER_BYTES);
        ghost var data := h2tData.input[before..h2tData.pos];
        assert h2tData.Received() == s.rx + data;
        assert forall i :: 0 <= i < |data| ==> headerBuff[i] == headerBuff[..|data|][i];
        run := HeaderRun(s, data, Abs(if rc == OK then Ready else Closed));
      }
    }

    /** `socket_recv_accumulate_h2t_data`: the next `len` bytes go through the
        staging buffer into FPGA memory; OK even when the receive failed, which
        only the byte count (`lost` here) tells. */
    method RecvAccumulateH2tData(addr: nat, len: nat)
      returns (rc: ReturnCode, lost: bool, ghost data: seq<byte>, ghost words: seq<byte>, ghost ks: seq<nat>)
      requires Valid() && Aligned(len) <= recvBuff.Length
      requires REGISTERS_END <= addr && addr + Aligned(len) <= Config().window
      modifies h2tData`pos, h2tData`recvFails, recvBuff, driver.fpga`hw
      ensures Valid() && rc == OK
      ensures |data| <= len && lost == (|data| < len) && h2tData.Received() == old(h2tData.Received()) + data
      ensures h2tData.recvFails == old(h2tData.recvFails) + if lost then 1 else 0
      ensures |data| == len ==> data <= words && |words| == Aligned(len) == 4 * |ks|
      ensures driver.fpga.hw == if |data| < len then old(driver.fpga.hw)
                                else CopyTo(Config(), old(driver.fpga.hw), addr, words, ks, |ks|)
    {
      rc := RecvAccumulate(h2tData, recvBuff, len);
      data := h2tData.input[old(h2tData.pos)..h2tData.pos];
      words, ks := recvBuff[..Aligned(len)], [];
      lost := rc == FAILURE;
      if !lost {
        assert data == recvBuff[..len] <= words;
        ks := driver.MemcpyHost2Fpga(recvBuff, addr, len);
      }
      rc := OK;
    }

    /** One piece of the payload as a run of the link. */
    method ReceivePiece(addr: nat, len: nat, ghost s: State)
      returns (rc: ReturnCode, ghost run: seq<Step>, ghost pc: Pc, ghost data: seq<byte>)
      requires Valid() && s.Ok() && s == Abs(s.pc) && PieceFits(s, addr, len)
      modifies h2tData`pos, h2tData`recvFails, recvBuff, driver.fpga`hw
      ensures Valid() && rc == OK
      ensures Exec(s, run) == Abs(pc)
      ensures |data| <= len && pc == AfterPiece(s.pc, s.Boundary(), data, len)
      ensures h2tData.recvFails == s.fails + if |data| < len then 1 else 0
    {
      PieceRange(s, addr, len);
      var lost;
      ghost var words, ks;
      rc, lost, data, words, ks := RecvAccumulateH2tData(addr, len);
      pc := AfterPiece(s.pc, s.Boundary(), data, len);
      run := PieceResult(s, addr, len, data, words, ks, Abs(pc));
    }

    /** The receive of the payload in `process_h2t_data`, in one or two pieces.
        The packet is intact exactly when no receive has failed. */
    method ReceivePayload(header: Header, buff: nat, ghost s: State)
      returns (rc: ReturnCode, ghost run: seq<Step>, ghost pc: Pc)
      requires Valid() && s.Ok() && s == Abs(Copying(buff, [], 0, Intact))
      requires header == s.Head() && BufferFits(s.c, buff, header.len)
      modifies h2tData`pos, h2tData`recvFails, recvBuff, driver.fpga`hw
      ensures Valid() && rc == OK
      ensures Exec(s, run) == Abs(pc)
      ensures pc.Copying? && pc.addr == buff && Pushable(Abs(pc))
      ensures pc.loss.Intact? <==> h2tData.recvFails == s.fails
    {
      var firstLen := WrapBoundary(Config().base, Config().span, buff, header.len);
      FirstPiece(s, firstLen);
      ghost var data;
      if firstLen != 0 {
        rc, run, pc, data := ReceivePiece(buff, firstLen, s);
        if rc == OK {
          ghost var more;
          rc, more, pc := ReceiveSecondPiece(header, firstLen, Abs(pc));
          ExecAppend(s, run, more);
          run := run + more;
        }
      } else {
        rc, run, pc, data := ReceivePiece(buff, header.len, s);
      }
    }

    method ReceiveSecondPiece(header: Header, firstLen: nat, ghost s: State)
      returns (rc: ReturnCode, ghost run: seq<Step>, ghost pc: Pc)
      requires Valid() && s.Ok() && s == Abs(s.pc) && header == s.Head() && s.pc.Copying? && firstLen == s.Boundary()
      requires firstLen < header.len && s.pc.addr + firstLen == s.c.base + s.c.span
      requires BufferFits(s.c, s.pc.addr, header.len) && IsWords(firstLen)
      requires s.pc.loss == FirstLost([], 0) || (s.pc.loss.Intact? && s.pc.stored == |s.pc.got| == firstLen)
      modifies h2tData`pos, h2tData`recvFails, recvBuff, driver.fpga`hw
      ensures Valid() && rc == OK
      ensures Exec(s, run) == Abs(pc)
      ensures pc.Copying? && pc.addr == s.pc.addr && Pushable(Abs(pc))
      ensures pc.loss.Intact? <==> s.pc.loss.Intact? && h2tData.recvFails == s.fails
      ensures h2tData.recvFails >= s.fails
    {
      SecondPiece(s, firstLen);
      ghost var data;
      rc, run, pc, data := ReceivePiece(Config().base, header.len - firstLen, s);
      SecondDone(s, firstLen, data, Abs(pc));
    }

    /** Neither a free descriptor nor room beside the unretired packets and what
        `longs` long payloads have cost. */
    ghost predicate NoRoom(longs: nat)
      requires Valid()
      reads this, driver, driver.fpga, driver.chain, driver.cbuff, h2tData, headerBuff
    {
      !RoomNow(Abs(Ready), longs)
    }

    /** Asking the driver for a buffer; without one the packet waits. */
    method AcquireBuffer(header: Header, ghost s: State, ghost longs: nat) returns (h2tBuff: nat, ghost run: seq<Step>)
      requires Valid() && s == Abs(Ready) && Reached(s, longs) && s.Ok() && header == s.Head()
      modifies this`h2tWaiting, this`h2tCnt
      modifies driver`slotsAvailable, driver`writeIdx, driver`readIdx, driver.chain, driver.cbuff, driver.fpga`hw
      ensures Valid() && h2tWaiting == (h2tBuff == 0)
      ensures h2tCnt == old(h2tCnt) + if h2tWaiting then 0 else 1
      ensures h2tWaiting ==> NoRoom(longs)
      ensures Exec(s, run) == Abs(if h2tBuff == 0 then Ready else Copying(h2tBuff, [], 0, Intact))
      ensures h2tBuff != 0 ==> BufferFits(s.c, h2tBuff, header.len)
    {
      ghost var r;
      h2tBuff, run, r := AskDriver(header, s, longs);
      if h2tBuff != 0 {
        h2tCnt := h2tCnt + 1;
        h2tWaiting := false;
      } else {
        h2tWaiting := true;
      }
      assert r == Abs(if h2tBuff == 0 then Ready else Copying(h2tBuff, [], 0, Intact));
    }

    /** The driver's answer as a run to `r`. */
    method AskDriver(header: Header, ghost s: State, ghost longs: nat)
      returns (h2tBuff: nat, ghost run: seq<Step>, ghost r: State)
      requires Valid() && s == Abs(Ready) && Reached(s, longs) && s.Ok() && header == s.Head()
      modifies driver`slotsAvailable, driver`writeIdx, driver`readIdx, driver.chain, driver.cbuff, driver.fpga`hw
      ensures Valid() && Exec(s, run) == r
      ensures r == s.(hw := driver.fpga.hw, drv := driver.Value(), waiting := h2tBuff == 0,
                      count := s.count + (if h2tBuff == 0 then 0 else 1),
                      pc := if h2tBuff == 0 then Ready else Copying(h2tBuff, [], 0, Intact))
      ensures h2tBuff != 0 ==> BufferFits(s.c, h2tBuff, header.len)
      ensures h2tBuff == 0 ==> r.Ok() && !RoomNow(r, longs)
    {
      ReachedSlots(s, longs);
      ghost var k;
      h2tBuff, k := driver.GetH2tBuffer(header.len);
      r := s.(hw := driver.fpga.hw, drv := driver.Value(), waiting := h2tBuff == 0,
              count := s.count + (if h2tBuff == 0 then 0 else 1),
              pc := if h2tBuff == 0 then Ready else Copying(h2tBuff, [], 0, Intact));
      run := Acquired(s, longs, k, driver.fpga.hw, driver.Value(), h2tBuff, r);
    }

    /** `process_h2t_data` without loopback. It fails exactly when a header does
        not arrive; otherwise one packet was accepted, or one waits for room. */
    method ProcessH2tData(ghost longs: nat) returns (rc: ReturnCode, ghost run: seq<Step>)
      requires Valid() && Reached(Abs(Start()), longs)
      modifies this`h2tWaiting, this`h2tCnt, h2tData`pos, h2tData`recvFails, headerBuff, recvBuff
      modifies driver`slotsAvailable, driver`writeIdx, driver`readIdx, driver.chain, driver.cbuff, driver.fpga`hw
      ensures Valid() && (rc == OK || rc == FAILURE)
      ensures Exec(old(Abs(Start())), run) == Abs(if rc == OK then Start() else Closed)
      ensures rc == OK <==> old(h2tWaiting) || h2tData.pos >= old(h2tData.pos) + HEADER_BYTES
      ensures h2tCnt == old(h2tCnt) + if rc == OK && !h2tWaiting then 1 else 0
      ensures rc == OK && h2tWaiting ==> NoRoom(longs)
    {
      ghost var s := Abs(Start());
      rc, run := UpdateCurrH2tHeader();
      if rc == OK {
        StillWaits(s, longs, run, Abs(Ready));
        ghost var more;
        more := TransferPacket(Decode(headerBuff[..]), Abs(Ready), longs);
        ExecAppend(s, run, more);
        run := run + more;
      }
    }

    /** `process_h2t_data` once the header is complete. */
    method TransferPacket(header: Header, ghost s: State, ghost longs: nat) returns (ghost run: seq<Step>)
      requires Valid() && s == Abs(Ready) && Reached(s, longs) && s.Ok() && header == s.Head()
      modifies this`h2tWaiting, this`h2tCnt, h2tData`pos, h2tData`recvFails, recvBuff
      modifies driver`slotsAvailable, driver`writeIdx, driver`readIdx, driver.chain, driver.cbuff, driver.fpga`hw
      ensures Valid() && h2tData.pos >= old(h2tData.pos)
      ensures Exec(s, run) == Abs(Start())
      ensures h2tCnt == old(h2tCnt) + if h2tWaiting then 0 else 1
      ensures h2tWaiting ==> NoRoom(longs)
    {
      var h2tBuff;
      h2tBuff, run := AcquireBuffer(header, s, longs);
      if h2tBuff != 0 {
        ghost var more := ReceiveAndPush(header, h2tBuff, Exec(s, run));
        ExecAppend(s, run, more);
        run := run + more;
      }
      RxGrows(s, run);
    }

    /** Receiving the payload and handing the packet to the driver. */
    method ReceiveAndPush(header: Header, buff: nat, ghost s: State) returns (ghost run: seq<Step>)
      requires Valid() && s.Ok() && s == Abs(Copying(buff, [], 0, Intact))
      requires header == s.Head() && BufferFits(s.c, buff, header.len)
      modifies h2tData`pos, h2tData`recvFails, recvBuff, driver`slotsAvailable, driver.fpga`hw
      ensures Valid() && Exec(s, run) == Abs(Receiving(0))
    {
      var rc;
      ghost var pc, more;
      rc, run, pc := ReceivePayload(header, buff, s);
      if rc == OK {
        more := Push(header, buff, Abs(pc));
        ExecAppend(s, run, more);
        run := run + more;
      }
    }

    method Push(header: Header, buff: nat, ghost s: State) returns (ghost run: seq<Step>)
      requires Valid() && s.Ok() && s == Abs(s.pc) && header == s.Head() && s.pc.Copying? && s.pc.addr == buff
      requires Pushable(s) && BufferFits(s.c, buff, header.len)
      modifies driver`slotsAvailable, driver.fpga`hw
      ensures Valid()
      ensures Exec(s, run) == Abs(Receiving(0))
    {
      ghost var k1, k2, hw1 := driver.PushH2tData(header, buff);
      run := PushRun(s, k1, k2, hw1, driver.fpga.hw, Abs(Receiving(0)));
    }

    /** The rounds of the client loop in which the socket is ready. A round that
        counts no packet met a full IP. */
    method ServeRounds(rounds: nat) returns (rc: ReturnCode, ghost run: seq<Step>)
      requires Valid() && Initial(Abs(Start()), false)
      modifies this`h2tWaiting, this`h2tCnt, h2tData`pos, h2tData`recvFails, headerBuff, recvBuff
      modifies driver`slotsAvailable, driver`writeIdx, driver`readIdx, driver.chain, driver.cbuff, driver.fpga`hw
      ensures Valid() && (rc == OK || rc == FAILURE)
      ensures Exec(old(Abs(Start())), run) == Abs(if rc == OK then Start() else Closed)
      ensures rc == OK ==> h2tCnt <= rounds && (h2tCnt < rounds ==> WasBlocked(old(Abs(Start())), 0, run))
      ensures rc == OK && h2tWaiting ==> NoRoom(Longs(old(Abs(Start())), run))
    {
      ghost var s := Abs(Start());
      InitReached(s, false);
      rc, run := OK, [];
      for i := 0 to rounds
        invariant Valid() && rc == OK && h2tData == old(h2tData)
        invariant Exec(s, run) == Abs(Start())
        invariant h2tCnt <= i && (h2tCnt < i ==> WasBlocked(s, 0, run))
        invariant h2tWaiting ==> NoRoom(Longs(s, run))
      {
        RunsStayReachable(s, 0, run);
        ghost var before := Abs(Start());
        ghost var more;
        rc, more := ProcessH2tData(Longs(s, run));
        ExecAppend(s, run, more);
        if rc == OK && h2tWaiting {
          RoundBlocked(s, run, more, before, Abs(Ready));
        } else if WasBlocked(s, 0, run) {
          StillBlocked(s, 0, run, more);
        }
        run := run + more;
        if rc != OK { break; }
      }
    }

    /** A session of the client loop without loopback, whatever the client sends
        and however often the socket is ready. As long as no receive failed but
        the one that ended the session, the IP reads a prefix of the packets in
        the received bytes, so of those a client has encoded; and all of them
        once they are consumed and the IP is idle. */
    method ServeH2t(rounds: nat, ghost fs: seq<Frame>) returns (rc: ReturnCode, ghost run: seq<Step>)
      requires Valid() && Initial(Abs(Start()), false)
      modifies this`h2tWaiting, this`h2tCnt, h2tData`pos, h2tData`recvFails, headerBuff, recvBuff
      modifies driver`slotsAvailable, driver`writeIdx, driver`readIdx, driver.chain, driver.cbuff, driver.fpga`hw
      ensures Valid() && (rc == OK || rc == FAILURE)
      ensures Exec(old(Abs(Start())), run) == Abs(if rc == OK then Start() else Closed)
      ensures rc != OK ==> h2tData.recvFails > old(h2tData.recvFails)
      ensures rc == OK ==> h2tCnt <= rounds && (h2tCnt < rounds ==> WasBlocked(old(Abs(Start())), 0, run))
      ensures rc == OK && h2tWaiting ==> NoRoom(Longs(old(Abs(Start())), run))
      ensures h2tData.recvFails == old(h2tData.recvFails) + (if rc == OK then 0 else 1) ==>
                && driver.fpga.hw.delivered <= Parse(h2tData.Received())
                && (!h2tWaiting && driver.fpga.hw.queue == [] ==> driver.fpga.hw.delivered == Parse(h2tData.Received()))
      ensures h2tData.recvFails == old(h2tData.recvFails) + (if rc == OK then 0 else 1)
              && Sendable(fs) && h2tData.input <= Stream(fs) ==>
                && driver.fpga.hw.delivered <= PacketsOf(fs)
                && (!h2tWaiting && driver.fpga.hw.queue == [] && h2tData.pos == |Stream(fs)| ==>
                      driver.fpga.hw.delivered == PacketsOf(fs))
    {
      ghost var s := Abs(Start());
      rc, run := ServeRounds(rounds);
      FailsGrow(s, run);
      ghost var last := Abs(if rc == OK then Start() else Closed);
      assert last == Exec(s, run);
      assert !h2tWaiting ==> last.pc == Receiving(0) || last.pc.Closed?;
      if NoPayloadLoss(s, last) {
        DeliveredAsReceived(s, run);
        if Sendable(fs) && h2tData.input <= Stream(fs) {
          assert h2tData.Received() <= Stream(fs);
          DeliveredInOrder(s, run, fs);
        }
      }
    }

    // ---------- loopback ----------

    /** What the staging buffers can hold; longer payloads overrun them. */
    predicate Stageable(header: Header) { header.len <= Config().span + PACKET_HEADER_SIZE }

    /** The staging buffers fit behind the memory base. */
    predicate LoopbackRoom() { Config().base + Config().span + PACKET_HEADER_SIZE <= Config().window }

    /** The header that `process_h2t_data` is about to use can be staged. */
    predicate NextStageable()
      requires Valid()
      reads this, driver, driver.fpga, driver.chain, driver.cbuff, h2tData, headerBuff
    {
      if h2tWaiting then Stageable(Decode(headerBuff[..]))
      else
        h2tData.pos + HEADER_BYTES <= |h2tData.input| ==>
          Stageable(Decode(h2tData.input[h2tData.pos..h2tData.pos + HEADER_BYTES]))
    }

    /** `socket_send_all_t2h_data` */
    method SendAllT2hData(addr: nat, len: nat) returns (rc: ReturnCode)
      requires Valid() && Aligned(len) <= sendBuff.Length
      requires REGISTERS_END <= addr && addr + Aligned(len) <= Config().window
      modifies t2hData`output, t2hData`sendFails, sendBuff, driver.fpga`hw
      ensures Valid() && driver.fpga.hw.mem == old(driver.fpga.hw).mem
      ensures t2hData.sendFails == old(t2hData.sendFails) + if rc == OK then 0 else 1
      ensures rc == OK ==> t2hData.output == old(t2hData.output) + Load(old(driver.fpga.hw).mem, addr, len)
      ensures rc != OK ==> rc == FAILURE && old(t2hData.output) <= t2hData.output
      ensures t2hData.output <= old(t2hData.output) + Load(old(driver.fpga.hw).mem, addr, len)
    {
      ghost var k := driver.MemcpyFpga2Host(addr, sendBuff, len);
      assert sendBuff[..len] == sendBuff[..Aligned(len)][..len];
      LoadPrefix(old(driver.fpga.hw).mem, addr, Aligned(len), len);
      rc := SendAll(t2hData, sendBuff, len);
    }

    /** One piece received at the memory base; `pad` is what is stored behind it. */
    method ReceiveHere(len: nat) returns (rc: ReturnCode, lost: bool, ghost data: seq<byte>, ghost pad: seq<byte>)
      requires Valid() && Aligned(len) <= recvBuff.Length && LoopbackRoom()
      modifies h2tData`pos, h2tData`recvFails, recvBuff, driver.fpga`hw
      ensures Valid() && rc == OK
      ensures h2tData.Received() == old(h2tData.Received()) + data && |data| <= len && lost == (|data| < len)
      ensures h2tData.recvFails == old(h2tData.recvFails) + if lost then 1 else 0
      ensures |pad| < 8 && (!lost ==> |data| + |pad| == Aligned(len))
      ensures !lost ==> driver.fpga.hw.mem == Store(old(driver.fpga.hw).mem, Config().base, data + pad)
    {
      ghost var hw, words, ks := driver.fpga.hw, [], [];
      pad := [];
      rc, lost, data, words, ks := RecvAccumulateH2tData(Config().base, len);
      if !lost {
        pad := words[len..];
        assert words == data + pad;
        CopyToStores(Config(), hw, Config().base, words, ks, |ks|);
        assert words[..4 * |ks|] == words;
      }
    }

    /** The receive of `process_h2t_data` at the memory base: the bytes that
        arrive, and the memory they leave when all do. */
    method ReceiveAtBase(len: nat) returns (rc: ReturnCode, lost: bool, ghost data: seq<byte>, ghost pad: seq<byte>)
      requires Valid() && len <= Config().span + PACKET_HEADER_SIZE && LoopbackRoom()
      modifies h2tData`pos, h2tData`recvFails, recvBuff, driver.fpga`hw
      ensures Valid() && rc == OK
      ensures h2tData.Received() == old(h2tData.Received()) + data && |data| <= len && lost == (|data| < len)
      ensures lost <==> h2tData.recvFails > old(h2tData.recvFails)
      ensures h2tData.recvFails >= old(h2tData.recvFails) && |pad| < 8
      ensures !lost ==> Config().base + len + |pad| <= |driver.fpga.hw.mem|
      ensures !lost ==>
                Load(driver.fpga.hw.mem, Config().base, len)
                == Echo(old(driver.fpga.hw).mem, Config().base, Config().span, data, pad)
    {
      var firstLen := WrapBoundary(Config().base, Config().span, Config().base, len);
      ghost var mem := driver.fpga.hw.mem;
      StagedFits(Config(), len);
      if firstLen != 0 {
        var lost2;
        ghost var data2, pad1;
        rc, lost, data, pad1 := ReceiveHere(firstLen);
        assert !lost ==> pad1 == [] && data + pad1 == data;
        rc, lost2, data2, pad := ReceiveHere(len - firstLen);
        if !lost && !lost2 { TwoPieces(mem, Config().base, Config().span, data, data2, pad); }
        data := data + data2;
        lost := lost || lost2;
      } else {
        rc, lost, data, pad := ReceiveHere(len);
      }
    }

    /** `process_h2t_data` with loopback on, once the header is complete: what
        comes back is the header and the echo of the payload. */
    method EchoPacket(header: Header) returns (rc: ReturnCode, lost: bool, ghost data: seq<byte>, ghost pad: seq<byte>)
      requires Valid() && header == Decode(headerBuff[..]) && Stageable(header) && LoopbackRoom()
      modifies this`h2tWaiting, this`h2tCnt, h2tData`pos, h2tData`recvFails, t2hData`output, t2hData`sendFails
      modifies recvBuff, sendBuff, driver.fpga`hw
      ensures Valid() && !h2tWaiting && h2tCnt == old(h2tCnt) + 1 && (rc == OK || rc == FAILURE)
      ensures h2tData.Received() == old(h2tData.Received()) + data && |data| <= header.len && lost == (|data| < header.len)
      ensures lost <==> h2tData.recvFails > old(h2tData.recvFails)
      ensures t2hData.sendFails == old(t2hData.sendFails) + if rc == OK then 0 else 1
      ensures h2tData.recvFails >= old(h2tData.recvFails) && |pad| < 8
      ensures !lost ==>
                && Config().base + |data| + |pad| <= |old(driver.fpga.hw).mem|
                && var back := headerBuff[..] + Echo(old(driver.fpga.hw).mem, Config().base, Config().span, data, pad);
                && old(t2hData.output) <= t2hData.output <= old(t2hData.output) + back
                && (rc == OK ==> t2hData.output == old(t2hData.output) + back)
    {
      h2tCnt := h2tCnt + 1;
      h2tWaiting := false;
      rc, lost, data, pad := ReceiveAtBase(header.len);
      ghost var out, back := t2hData.output, Load(driver.fpga.hw.mem, Config().base, 0);
      StagedFits(Config(), header.len);
      if rc == OK {
        rc := SendAll(t2hData, headerBuff, HEADER_BYTES);
        assert headerBuff[..HEADER_BYTES] == headerBuff[..];
        if rc == OK {
          back := Load(driver.fpga.hw.mem, Config().base, header.len);
          rc := SendAllT2hData(Config().base, header.len);
          assert out + headerBuff[..] + back == out + (headerBuff[..] + back);
        }
      }
    }

    /** `update_curr_h2t_header`, with the bytes it holds afterwards. */
    method HoldHeader() returns (rc: ReturnCode, ghost got: seq<byte>)
      requires Valid()
      modifies h2tData`pos, h2tData`recvFails, headerBuff
      ensures Valid() && (rc == OK || rc == FAILURE)
      ensures h2tData.Received() == old(h2tData.Received()) + if old(h2tWaiting) then [] else got
      ensures old(h2tWaiting) ==> rc == OK && got == old(headerBuff[..])
      ensures if rc == OK then got == headerBuff[..] else |got| < HEADER_BYTES
      ensures h2tData.recvFails == old(h2tData.recvFails) + if rc == OK then 0 else 1
    {
      ghost var start := h2tData.pos;
      ghost var run;
      rc, run := UpdateCurrH2tHeader();
      got := if h2tWaiting then headerBuff[..] else h2tData.input[start..h2tData.pos];
    }

    /** `process_h2t_data` with loopback on. `got` is what the call has consumed:
        a held header, and bytes of the stream. A whole packet is echoed; `lost`
        tells exactly that its payload came short. */
    method ProcessH2tLoopback() returns (rc: ReturnCode, lost: bool, ghost got: seq<byte>, ghost pad: seq<byte>)
      requires Valid() && NextStageable() && LoopbackRoom()
      modifies this`h2tWaiting, this`h2tCnt, h2tData`pos, h2tData`recvFails, t2hData`output, t2hData`sendFails
      modifies headerBuff, recvBuff, sendBuff, driver.fpga`hw
      ensures Valid() && (rc == OK || rc == FAILURE)
      ensures !old(h2tWaiting) ==> h2tData.Received() == old(h2tData.Received()) + got
      ensures old(h2tWaiting) ==>
                old(headerBuff[..]) <= got && h2tData.Received() == old(h2tData.Received()) + got[HEADER_BYTES..]
      ensures |got| < HEADER_BYTES ==> rc == FAILURE && !lost && t2hData.output == old(t2hData.output)
      ensures |got| >= HEADER_BYTES ==> !h2tWaiting && (lost <==> !HasPacket(got))
      ensures h2tCnt == old(h2tCnt) + if |got| >= HEADER_BYTES then 1 else 0
      ensures h2tData.recvFails == old(h2tData.recvFails) <==> HasPacket(got)
      ensures rc == OK <==> |got| >= HEADER_BYTES && t2hData.sendFails == old(t2hData.sendFails)
      ensures h2tData.recvFails >= old(h2tData.recvFails) && t2hData.sendFails >= old(t2hData.sendFails)
      ensures HasPacket(got) ==>
                Echoed(Config(), old(driver.fpga.hw).mem, got, pad, old(t2hData.output), t2hData.output, rc == OK)
    {
      ghost var before := h2tData.Received();
      lost, pad := false, [];
      rc, got := HoldHeader();
      if rc == OK {
        ghost var data;
        rc, lost, data, pad := EchoPacket(Decode(headerBuff[..]));
        WholePacket(got, data);
        assert (before + got) + data == before + (got + data);
        got := got + data;
      }
    }

    /** The same inside a stream whose payloads can be staged. */
    method EchoNext() returns (rc: ReturnCode, lost: bool, ghost got: seq<byte>)
      requires Valid() && LoopbackRoom() && !h2tWaiting && Rest(h2tData.Received()) == []
      requires Announces(h2tData.input, Config().span + PACKET_HEADER_SIZE)
      modifies this`h2tWaiting, this`h2tCnt, h2tData`pos, h2tData`recvFails, t2hData`output, t2hData`sendFails
      modifies headerBuff, recvBuff, sendBuff, driver.fpga`hw
      ensures Valid() && (rc == OK || rc == FAILURE) && h2tData.Received() == old(h2tData.Received()) + got
      ensures lost ==> Rest(h2tData.Received()) != []
      ensures h2tData.recvFails == old(h2tData.recvFails) && t2hData.sendFails == old(t2hData.sendFails) ==>
                rc == OK && !lost
      ensures h2tData.recvFails >= old(h2tData.recvFails) && t2hData.sendFails >= old(t2hData.sendFails)
      ensures rc == OK && !lost ==>
                !h2tWaiting && Rest(h2tData.Received()) == []
                && |Parse(h2tData.Received())| == |Parse(old(h2tData.Received()))| + 1
      ensures Announces(h2tData.input, Config().span) && !lost ==>
                && t2hData.output <= old(t2hData.output) + got
                && (rc == OK ==> t2hData.output == old(t2hData.output) + got)
    {
      ghost var done, mem, out := h2tData.Received(), driver.fpga.hw.mem, t2hData.output;
      NextInStream(h2tData.input, h2tData.pos, Config().span + PACKET_HEADER_SIZE);
      ghost var pad;
      rc, lost, got, pad := ProcessH2tLoopback();
      AfterRound(done, got);
      if Announces(h2tData.input, Config().span) && HasPacket(got) {
        EchoInStream(h2tData.input, done, got, Config(), mem, pad, out, t2hData.output, rc == OK);
      }
    }

    /** A session of the client loop with loopback on, whatever the client sends,
        up to the first payload that comes short: if every payload fits the
        memory, the client reads back what the server consumed. Without a failed socket call there is neither
        a loss nor an error, and every round echoes one packet. */
    method ServeLoopback(rounds: nat) returns (rc: ReturnCode, lost: bool)
      requires Valid() && LoopbackRoom() && !h2tWaiting && h2tData.pos == 0 && t2hData.output == []
      requires Announces(h2tData.input, Config().span + PACKET_HEADER_SIZE)
      modifies this`h2tWaiting, this`h2tCnt, h2tData`pos, h2tData`recvFails, t2hData`output, t2hData`sendFails
      modifies headerBuff, recvBuff, sendBuff, driver.fpga`hw
      ensures Valid() && (rc == OK || rc == FAILURE)
      ensures lost ==> Rest(h2tData.Received()) != []
      ensures h2tData.recvFails == old(h2tData.recvFails) && t2hData.sendFails == old(t2hData.sendFails) ==>
                rc == OK && !lost
      ensures rc == OK && !lost ==> |Parse(h2tData.Received())| == rounds && Rest(h2tData.Received()) == []
      ensures Announces(h2tData.input, Config().span) && !lost ==> t2hData.output <= h2tData.Received()
      ensures Announces(h2tData.input, Config().span) && !lost && rc == OK ==> t2hData.output == h2tData.Received()
    {
      rc, lost := OK, false;
      for i := 0 to rounds
        invariant Valid() && !h2tWaiting && rc == OK && !lost
        invariant Rest(h2tData.Received()) == [] && |Parse(h2tData.Received())| == i
        invariant Announces(h2tData.input, Config().span) ==> t2hData.output == h2tData.Received()
        invariant h2tData.recvFails >= old(h2tData.recvFails) && t2hData.sendFails >= old(t2hData.sendFails)
      {
        ghost var got;
        rc, lost, got := EchoNext();
        if rc != OK || lost { break; }
      }
    }
  }
}

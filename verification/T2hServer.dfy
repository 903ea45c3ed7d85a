/** `process_t2h_data` and what it calls, against the target-to-host link. */
module T2hServer {
  import opened Words
  import opened Circular
  import opened Packets
  import opened Sockets
  import opened Fpga
  import opened T2hLink
  import opened T2hTheorems

  /** The T2H half of the debug IP. It may produce packets at every 32-bit access,
      so also between the halves of an emulated 64-bit read; a native read is the
      case in which it does not. Each method extends the run it is given.
      `emptyPolls` counts the polls that showed no length. */
  class T2hIp {
    const c: Config
    var mem: Memory
    var log: seq<Packet>
    var queue: seq<Descriptor>
    ghost var emptyPolls: nat

    constructor (config: Config, memory: Memory)
      ensures c == config && mem == memory && log == [] && queue == [] && emptyPolls == 0
    {
      c, mem, log, queue, emptyPolls := config, memory, [], [], 0;
    }

    ghost predicate Valid()
      reads this
    {
      && c.Valid() && |mem| == c.window
      && (forall d :: d in queue ==> WellPlaced(c, d))
      && (forall p :: p in log ==> |p.payload| <= c.span)
    }

    /** The IP's part of the state of the link. */
    ghost function Into(s: State): State
      reads this
    {
      s.(c := c, mem := mem, log := log, queue := queue)
    }

    /** The oldest descriptor and its payload. */
    function Head(): Descriptor
      requires queue != []
      reads this
    {
      queue[0]
    }

    ghost function HeadPayload(): seq<byte>
      requires Valid() && queue != []
      reads this
    {
      PayloadOf(c, mem, queue[0])
    }

    method Interfere(ghost s: State) returns (ghost run: seq<Step>)
      requires Valid() && s == Into(s)
      modifies this`mem, this`log, this`queue
      ensures Valid() && Exec(s, run) == Into(s)
      ensures old(queue) != [] ==> queue != [] && Head() == old(Head()) && HeadPayload() == old(HeadPayload())
    {
      run := [];
      var n: nat :| 0 <= n;
      for i := 0 to n
        invariant Valid() && Exec(s, run) == Into(s)
        invariant old(queue) != [] ==> queue != [] && Head() == old(Head()) && HeadPayload() == old(HeadPayload())
      {
        var d: Descriptor := *;
        var m: Memory := *;
        if CanProduce(c, mem, queue, d, m) {
          ExecThen(s, run, Produce(d, m));
          run := run + [Produce(d, m)];
          assert queue != [] ==> queue[0] in queue;
          log := log + [PacketAt(c, m, d)];
          mem := m;
          queue := queue + [d];
        }
      }
    }

    /** The registers show no descriptor, or one whose length the header cannot show. */
    predicate NothingAnnounced()
      reads this
    {
      queue == [] || Head().len % B16 == 0
    }

    /** `fpga_read_64` of HOW_LONG and WHERE: zero length without a descriptor */
    method ReadHowLongWhere(ghost s: State) returns (lastHowlong: nat, where: nat, ghost run: seq<Step>)
      requires Valid() && s == Into(s)
      modifies this
      ensures Valid() && Exec(s, run) == Into(s)
      ensures if U16(Low31(lastHowlong)) == 0 then old(NothingAnnounced()) && emptyPolls == old(emptyPolls) + 1
              else
                && queue != [] && emptyPolls == old(emptyPolls) && where == Head().where
                && lastHowlong == Low31(Head().len) + if Head().last then B31 else 0
    {
      run := Interfere(s);
      lastHowlong := if queue == [] then 0 else Low31(queue[0].len) + if queue[0].last then B31 else 0;
      if queue != [] { HowLongWord(queue[0].len, queue[0].last, lastHowlong); }
      if U16(Low31(lastHowlong)) == 0 { emptyPolls := emptyPolls + 1; }
      ghost var more := Interfere(Exec(s, run));
      ExecAppend(s, run, more);
      run := run + more;
      where := if queue == [] then 0 else queue[0].where;
    }

    /** `fpga_read_64` of CONNECTION_ID and CHANNEL_ID */
    method ReadConnChannel(ghost s: State) returns (v: nat, ghost run: seq<Step>)
      requires Valid() && s == Into(s) && queue != []
      modifies this`mem, this`log, this`queue
      ensures Valid() && Exec(s, run) == Into(s)
      ensures queue != [] && Head() == old(Head()) && HeadPayload() == old(HeadPayload())
      ensures v == Head().conn as int + B32 * Head().channel
    {
      run := Interfere(s);
      v := queue[0].conn;
      ghost var more := Interfere(Exec(s, run));
      ExecAppend(s, run, more);
      run := run + more;
      v := v + B32 * queue[0].channel;
    }

    /** One 32-bit half of `fpga_read_64` of memory */
    method ReadHalf(addr: nat, ghost s: State) returns (half: seq<byte>, ghost run: seq<Step>)
      requires Valid() && s == Into(s) && queue != [] && addr + 4 <= c.window
      modifies this`mem, this`log, this`queue
      ensures Valid() && Exec(s, run) == Into(s)
      ensures queue != [] && Head() == old(Head()) && HeadPayload() == old(HeadPayload())
      ensures half == Circular.Load(mem, addr, 4)
    {
      run := Interfere(s);
      half := Circular.Load(mem, addr, 4);
    }

    /** `assert_h2t_t2h_reset` */
    method Reset()
      requires Valid()
      modifies this
      ensures Valid() && log == [] && queue == [] && emptyPolls == 0 && mem == old(mem)
    {
      log, queue, emptyPolls := [], [], 0;
    }

    /** `fpga_write_32` of DESCRIPTORS_DONE */
    method DescriptorDone(ghost s: State) returns (ghost run: seq<Step>)
      requires Valid() && s == Into(s) && queue != []
      modifies this`mem, this`log, this`queue
      ensures Valid()
      ensures var r := Exec(s, run); r.queue != [] && Into(s) == r.(queue := r.queue[1..])
    {
      run := Interfere(s);
      queue := queue[1..];
    }
  }

  /** Sending what is staged: all of it, or a proper prefix and the session is over. */
  lemma SendRun(s: State, wire: seq<byte>, r: State) returns (run: seq<Step>)
    requires s.Ok() && s.pc.Sending?
    requires s.wire <= wire <= s.wire + s.pc.out
    requires r == s.(wire := wire, pc := if wire == s.wire + s.pc.out then s.pc.(out := []) else Closed)
    ensures Exec(s, run) == r
  {
    var n := |wire| - |s.wire|;
    assert wire == s.wire + s.pc.out[..n];
    ExecOne(s, Send(n));
    run := [Send(n)];
    if wire != s.wire + s.pc.out {
      ExecThen(s, run, SendFail);
      run := run + [SendFail];
    }
  }

  /** A byte of memory that a piece of the payload covers. */
  lemma ByteOfPayload(c: Config, mem: Memory, d: Descriptor, at: nat, addr: nat, n: nat, k: nat)
    requires c.Valid() && |mem| == c.window && at + n <= d.len && k < n
    requires addr == Address(c.base, c.span, d.where + at) && addr + n <= c.base + c.span
    ensures mem[addr + k] == PayloadOf(c, mem, d)[at + k]
  {
    var x := d.where + at;
    ModStep(x, k, c.span);
    assert Address(c.base, c.span, x + k) == addr + k;
    assert Read(mem, c.base, c.span, d.where, d.len)[at + k] == mem[Address(c.base, c.span, d.where + (at + k))];
    assert d.where + (at + k) == x + k;
  }

  /** The bytes `part` from position `k` of the piece on are those of the payload. */
  ghost predicate Carries(part: seq<byte>, payload: seq<byte>, at: nat, n: nat, k: nat)
    requires at + n <= |payload|
  {
    forall j :: 0 <= j < |part| && k + j < n ==> part[j] == payload[at + k + j]
  }

  /** Half a word of memory holds what of the payload it covers. */
  lemma HalfOfPayload(c: Config, mem: Memory, d: Descriptor, at: nat, addr: nat, n: nat, k: nat)
    requires c.Valid() && |mem| == c.window && at + n <= d.len && addr + k + 4 <= |mem|
    requires addr == Address(c.base, c.span, d.where + at) && addr + n <= c.base + c.span
    ensures Carries(Circular.Load(mem, addr + k, 4), PayloadOf(c, mem, d), at, n, k)
  {
    var part := Circular.Load(mem, addr + k, 4);
    forall j | 0 <= j < 4 && k + j < n
      ensures part[j] == PayloadOf(c, mem, d)[at + k + j]
    {
      ByteOfPayload(c, mem, d, at, addr, n, k + j);
    }
  }

  lemma PartsCarry(lo: seq<byte>, hi: seq<byte>, payload: seq<byte>, at: nat, n: nat, k: nat)
    requires at + n <= |payload| && Carries(lo, payload, at, n, k) && Carries(hi, payload, at, n, k + |lo|)
    ensures Carries(lo + hi, payload, at, n, k)
  {
    forall j | 0 <= j < |lo + hi| && k + j < n
      ensures (lo + hi)[j] == payload[at + k + j]
    {
      if j >= |lo| { assert hi[j - |lo|] == payload[at + (k + |lo|) + (j - |lo|)]; }
    }
  }

  /** The header of a descriptor, byte by byte. */
  function HeaderBytes(d: Descriptor, sop: bool): seq<byte> {
    [0xDE, 0xAD, 0xBE, 0xEF, (if sop then 1 else 0) + (if d.last then 2 else 0), d.conn,
     d.channel % 65536 % 256, d.channel % 65536 / 256, d.len % 65536 % 256, d.len % 65536 / 256]
  }

  lemma HeaderBytesAre(d: Descriptor, sop: bool)
    ensures Encode(HeaderOf(d, sop)) == HeaderBytes(d, sop)
  {
    LowBits(d.len);
  }

  /** The poll finds a descriptor. */
  lemma AcquireNext(r: State, len: nat)
    requires r.Ok() && r.pc.Idle? && r.queue != []
    requires len == U16(Low31(r.queue[0].len)) != 0 && r.c.base + r.queue[0].where < B32
    ensures Next(r, Acquire) ==
            r.(sop := r.queue[0].last, count := r.count + 1,
               pc := Sending(r.c.base + r.queue[0].where, len, Encode(HeaderOf(r.queue[0], r.sop)), 0))
  {
    assert U32(r.c.base + r.queue[0].where) == r.c.base + r.queue[0].where;
  }

  class T2hServer {
    const ip: T2hIp
    var t2hData: Socket
    const headerBuff: array<byte>
    const sendBuff: array<byte>
    var sop: bool
    var t2hCnt: nat

    /** The guardband is filled in once. */
    constructor (hw: T2hIp, sock: Socket)
      requires hw.Valid()
      ensures ip == hw && t2hData == sock && sop && t2hCnt == 0 && Valid()
      ensures sendBuff.Length == hw.c.span + 64 && fresh(headerBuff) && fresh(sendBuff)
    {
      ip, t2hData, sop, t2hCnt := hw, sock, true, 0;
      headerBuff := new byte[HEADER_BYTES];
      sendBuff := new byte[hw.c.span + PACKET_HEADER_SIZE];
      new;
      PopulateGuardband(headerBuff);
    }

    /** What `connect_client` does to this state before the handshake: the IP is
        reset, the next packet starts a message, and counting starts afresh. */
    method Connect(sock: Socket)
      requires Valid() && sock.output == []
      modifies this`t2hData, this`sop, this`t2hCnt, ip
      ensures Valid() && t2hData == sock && sop && t2hCnt == 0 && ip.queue == []
      ensures Initial(Abs(Idle))
    {
      ip.Reset();
      t2hData, sop, t2hCnt := sock, true, 0;
    }

    ghost predicate Valid()
      reads this, ip, headerBuff
    {
      && ip.Valid() && headerBuff.Length == HEADER_BYTES && headerBuff[..4] == GUARDBAND
      && sendBuff.Length == ip.c.span + PACKET_HEADER_SIZE && headerBuff != sendBuff
    }

    ghost function Abs(pc: Pc): State
      reads this, ip, t2hData
    {
      State(ip.c, ip.mem, ip.log, ip.queue, sop, pc, t2hCnt, t2hData.output)
    }

    /** The header fields that follow the length. */
    method FillHeader(sopEop: byte, conn: byte, channel: nat, ghost len: nat)
      requires Valid() && channel < B16 && len < B16
      requires headerBuff[8] == len % 256 && headerBuff[9] == len / 256
      modifies headerBuff
      ensures Valid() && headerBuff[..] == Encode(Header(sopEop, conn, channel, len))
    {
      headerBuff[4] := sopEop;
      headerBuff[5] := conn;
      headerBuff[6] := channel % 256;
      headerBuff[7] := channel / 256;
      assert headerBuff[..] == headerBuff[..4] + [sopEop, conn, channel % 256, channel / 256, len % 256, len / 256];
    }

    /** `get_t2h_data`, which fills in the header in place; `len` 0 means no data. */
    method GetT2hData(ghost s: State) returns (len: nat, payload: nat, ghost run: seq<Step>)
      requires Valid() && s == Abs(Idle)
      modifies this`sop, headerBuff, ip
      ensures Valid() && len < B16
      ensures len == 0 ==> Exec(s, run) == Abs(Idle) && old(ip.NothingAnnounced())
      ensures ip.emptyPolls == old(ip.emptyPolls) + if len == 0 then 1 else 0
      ensures len != 0 ==>
                && Exec(s, run) == Abs(Sending(payload, len, headerBuff[..], 0)).(count := s.count + 1)
                && ip.queue != [] && headerBuff[..] == HeaderBytes(ip.Head(), old(sop)) && sop == ip.Head().last
                && len == ip.Head().len % 65536 && len <= ip.Head().len && payload == ip.c.base + ip.Head().where
    {
      var lastHowlong, where;
      lastHowlong, where, run := ip.ReadHowLongWhere(s);
      len := U16(Low31(lastHowlong));
      if len != 0 { HowLongWord(ip.Head().len, ip.Head().last, lastHowlong); }
      headerBuff[8] := len % 256;
      headerBuff[9] := len / 256;
      payload := 0;
      if len != 0 {
        LowBits(ip.Head().len);
        ghost var more;
        payload, more := Announce(lastHowlong, where, len, Abs(Idle));
        ExecAppend(s, run, more);
        run := run + more;
      }
    }

    /** `get_t2h_data` once the length is known. */
    method Announce(lastHowlong: nat, where: nat, len: nat, ghost s: State) returns (payload: nat, ghost run: seq<Step>)
      requires Valid() && s == Abs(Idle) && ip.queue != []
      requires lastHowlong == Low31(ip.Head().len) + (if ip.Head().last then B31 else 0) && where == ip.Head().where
      requires 0 < len == U16(Low31(ip.Head().len)) && headerBuff[8] == len % 256 && headerBuff[9] == len / 256
      modifies this`sop, headerBuff, ip`mem, ip`log, ip`queue
      ensures Valid() && Exec(s, run) == Abs(Sending(payload, len, headerBuff[..], 0)).(count := s.count + 1)
      ensures ip.queue != [] && ip.Head() == old(ip.Head()) && payload == ip.c.base + ip.Head().where
      ensures headerBuff[..] == HeaderBytes(ip.Head(), old(sop)) && sop == ip.Head().last
    {
      ghost var d := ip.Head();
      assert d in ip.queue;
      HowLongWord(d.len, d.last, lastHowlong);
      HeadAddress(ip.c, where);
      payload := U32(where + ip.c.base);
      var sopEop: byte := if sop then 1 else 0;
      if Bit31(lastHowlong) {
        sopEop := sopEop + 2;
        sop := true;
      } else {
        sop := false;
      }
      AcquireNext(s, len);
      ExecOne(s, Acquire);
      var v;
      ghost var more;
      v, more := ip.ReadConnChannel(Next(s, Acquire));
      ExecCons(s, Acquire, more);
      run := [Acquire] + more;
      ConnWord(d.conn, d.channel, v);
      FillHeader(sopEop, v % 256, U16(v / B32), len);
      HeaderBytesAre(d, s.sop);
    }

    /** `memcpy64_fpga2host` of `n` payload bytes from position `at` on. */
    method MemcpyFpga2Host(addr: nat, n: nat, ghost at: nat, ghost s: State) returns (ghost run: seq<Step>)
      requires Valid() && s.Ok() && s == Abs(s.pc) && PieceOk(addr, n, at)
      modifies ip`mem, ip`log, ip`queue, sendBuff
      ensures Valid() && Exec(s, run) == Abs(s.pc)
      ensures ip.queue != [] && ip.Head() == old(ip.Head()) && ip.HeadPayload() == old(ip.HeadPayload())
      ensures sendBuff[..n] == ip.HeadPayload()[at..at + n]
    {
      var transfers := (n + 7) / 8;
      var from: nat := addr;
      run := [];
      for i := 0 to transfers
        invariant Valid() && Exec(s, run) == Abs(s.pc) && from == addr + 8 * i
        invariant ip.queue != [] && ip.Head() == old(ip.Head()) && ip.HeadPayload() == old(ip.HeadPayload())
        invariant Staged(8 * i, n, at)
      {
        ghost var more := StageWord(from, i, addr, n, at, Abs(s.pc));
        ExecAppend(s, run, more);
        run := run + more;
        from := from + 8;
      }
    }

    /** The first `k` bytes of the staging buffer are those of the payload from `at` on. */
    ghost predicate Staged(k: nat, n: nat, at: nat)
      requires ip.Valid() && ip.queue != [] && k <= sendBuff.Length && at + n <= ip.Head().len
      reads this, ip, sendBuff
    {
      Carries(sendBuff[..k], ip.HeadPayload(), at, n, 0)
    }

    /** One turn of the loop. */
    method StageWord(from: nat, i: nat, ghost addr: nat, ghost n: nat, ghost at: nat, ghost s: State)
      returns (ghost run: seq<Step>)
      requires Valid() && s.Ok() && s == Abs(s.pc) && PieceOk(addr, n, at)
      requires from == addr + 8 * i && 8 * (i + 1) <= Aligned(n) && Staged(8 * i, n, at)
      modifies ip`mem, ip`log, ip`queue, sendBuff
      ensures Valid() && Exec(s, run) == Abs(s.pc)
      ensures ip.queue != [] && ip.Head() == old(ip.Head()) && ip.HeadPayload() == old(ip.HeadPayload())
      ensures Staged(8 * (i + 1), n, at)
    {
      var word;
      word, run := LoadWord(from, addr, n, at, s);
      ghost var before := sendBuff[..8 * i];
      PutWord(sendBuff, 8 * i, word);
      assert sendBuff[..8 * (i + 1)] == before + word;
      PartsCarry(before, word, ip.HeadPayload(), at, n, 0);
    }

    /** `fpga_read_64` of memory, by its halves */
    method LoadWord(from: nat, ghost addr: nat, ghost n: nat, ghost at: nat, ghost s: State)
      returns (word: seq<byte>, ghost run: seq<Step>)
      requires Valid() && s.Ok() && s == Abs(s.pc) && PieceOk(addr, n, at)
      requires addr <= from && from + 8 <= ip.c.window
      modifies ip`mem, ip`log, ip`queue
      ensures Valid() && Exec(s, run) == Abs(s.pc)
      ensures ip.queue != [] && ip.Head() == old(ip.Head()) && ip.HeadPayload() == old(ip.HeadPayload())
      ensures |word| == 8 && Carries(word, ip.HeadPayload(), at, n, from - addr)
    {
      var lo, hi;
      ghost var more;
      lo, run := ip.ReadHalf(from, s);
      HalfOfPayload(ip.c, ip.mem, ip.Head(), at, addr, n, from - addr);
      hi, more := ip.ReadHalf(from + 4, Abs(s.pc));
      HalfOfPayload(ip.c, ip.mem, ip.Head(), at, addr, n, from + 4 - addr);
      ExecAppend(s, run, more);
      run := run + more;
      word := lo + hi;
      PartsCarry(lo, hi, ip.HeadPayload(), at, n, from - addr);
    }

    /** A non-empty piece of the oldest payload, on word boundaries. */
    ghost predicate PieceOk(addr: nat, n: nat, at: nat)
      requires ip.Valid()
      reads this, ip
    {
      && ip.queue != [] && 0 < n && at + n <= ip.Head().len
      && addr == Address(ip.c.base, ip.c.span, ip.Head().where + at)
      && addr + Aligned(n) <= ip.c.base + ip.c.span
    }

    /** `socket_send_all_t2h_data` */
    method SendAllT2hData(addr: nat, n: nat, ghost at: nat, ghost s: State) returns (rc: ReturnCode, ghost run: seq<Step>)
      requires Valid() && s.Ok() && s == Abs(s.pc) && PieceOk(addr, n, at)
      requires s.pc.Sending? && s.pc.out == [] && s.pc.loaded == at && at + n <= s.pc.len
      requires s.pc.addr == ip.c.base + ip.Head().where
      modifies ip`mem, ip`log, ip`queue, sendBuff, t2hData`output, t2hData`sendFails
      ensures Valid() && (rc == OK || rc == FAILURE)
      ensures Exec(s, run) == Abs(if rc == OK then s.pc.(loaded := at + n) else Closed)
      ensures t2hData.sendFails == old(t2hData.sendFails) + if rc == OK then 0 else 1
      ensures ip.queue != [] && ip.Head() == old(ip.Head())
    {
      run := MemcpyFpga2Host(addr, n, at, s);
      ghost var s1 := Abs(s.pc);
      ghost var s2 := s1.(pc := s.pc.(out := sendBuff[..n], loaded := at + n));
      LoadNext(s1, n, sendBuff[..n]);
      ExecThen(s, run, Load(n));
      run := run + [Load(n)];
      rc := SendAll(t2hData, sendBuff, n);
      ghost var more := SendRun(s2, t2hData.output, Abs(if rc == OK then s.pc.(loaded := at + n) else Closed));
      ExecAppend(s, run, more);
      run := run + more;
    }

    /** The payload part of `process_t2h_data`, in one or two pieces. */
    method SendPayload(payload: nat, len: nat, ghost s: State) returns (rc: ReturnCode, ghost run: seq<Step>)
      requires Valid() && s.Ok() && s == Abs(Sending(payload, len, [], 0))
      requires ip.queue != [] && 0 < len <= ip.Head().len && payload == ip.c.base + ip.Head().where
      modifies ip`mem, ip`log, ip`queue, sendBuff, t2hData`output, t2hData`sendFails
      ensures Valid() && (rc == OK || rc == FAILURE) && ip.queue != []
      ensures Exec(s, run) == Abs(if rc == OK then Sending(payload, len, [], len) else Closed)
      ensures t2hData.sendFails == old(t2hData.sendFails) + if rc == OK then 0 else 1
    {
      assert ip.Head() in ip.queue;
      var firstLen := WrapBoundary(ip.c.base, ip.c.span, payload, len);
      Pieces(ip.c, ip.Head(), len, firstLen);
      if firstLen != 0 {
        rc, run := SendFirstPiece(payload, firstLen, len, s);
        if rc == OK {
          ghost var more;
          rc, more := SendSecondPiece(payload, len, firstLen, Abs(Sending(payload, len, [], firstLen)));
          ExecAppend(s, run, more);
          run := run + more;
        }
      } else {
        rc, run := SendFirstPiece(payload, len, len, s);
      }
    }

    method SendFirstPiece(payload: nat, n: nat, len: nat, ghost s: State) returns (rc: ReturnCode, ghost run: seq<Step>)
      requires Valid() && s.Ok() && s == Abs(Sending(payload, len, [], 0))
      requires ip.queue != [] && 0 < n <= len <= ip.Head().len && payload == ip.c.base + ip.Head().where
      requires payload == Address(ip.c.base, ip.c.span, ip.Head().where)
      requires payload + Aligned(n) <= ip.c.base + ip.c.span
      modifies ip`mem, ip`log, ip`queue, sendBuff, t2hData`output, t2hData`sendFails
      ensures Valid() && (rc == OK || rc == FAILURE) && ip.queue != [] && ip.Head() == old(ip.Head())
      ensures Exec(s, run) == Abs(if rc == OK then Sending(payload, len, [], n) else Closed)
      ensures t2hData.sendFails == old(t2hData.sendFails) + if rc == OK then 0 else 1
    {
      rc, run := SendAllT2hData(payload, n, 0, s);
    }

    method SendSecondPiece(payload: nat, len: nat, firstLen: nat, ghost s: State)
      returns (rc: ReturnCode, ghost run: seq<Step>)
      requires Valid() && s.Ok() && s == Abs(Sending(payload, len, [], firstLen))
      requires ip.queue != [] && firstLen < len <= ip.Head().len && payload == ip.c.base + ip.Head().where
      requires Address(ip.c.base, ip.c.span, ip.Head().where + firstLen) == ip.c.base
      requires ip.c.base + Aligned(len - firstLen) <= ip.c.base + ip.c.span
      modifies ip`mem, ip`log, ip`queue, sendBuff, t2hData`output, t2hData`sendFails
      ensures Valid() && (rc == OK || rc == FAILURE) && ip.queue != []
      ensures Exec(s, run) == Abs(if rc == OK then Sending(payload, len, [], len) else Closed)
      ensures t2hData.sendFails == old(t2hData.sendFails) + if rc == OK then 0 else 1
    {
      rc, run := SendAllT2hData(ip.c.base, len - firstLen, firstLen, s);
    }

    /** `process_t2h_data`: it fails exactly when a send fails; otherwise one
        packet was sent and completed, or the poll was empty and nothing had been
        announced when it began. */
    method ProcessT2hData() returns (rc: ReturnCode, ghost run: seq<Step>)
      requires Valid()
      modifies this`sop, this`t2hCnt, headerBuff, sendBuff, ip, t2hData`output, t2hData`sendFails
      ensures Valid() && (rc == OK || rc == FAILURE)
      ensures Exec(old(Abs(Idle)), run) == Abs(if rc == OK then Idle else Closed)
      ensures t2hData.sendFails == old(t2hData.sendFails) + if rc == OK then 0 else 1
      ensures t2hCnt == old(t2hCnt) + 1 || (rc == OK && t2hCnt == old(t2hCnt) && old(ip.NothingAnnounced()))
      ensures t2hCnt + ip.emptyPolls == old(t2hCnt) + old(ip.emptyPolls) + 1
    {
      ghost var s := Abs(Idle);
      var len, payload;
      len, payload, run := GetT2hData(s);
      if len == 0 {
        return OK, run;
      }
      t2hCnt := t2hCnt + 1;
      ghost var more;
      rc, more := SendPacket(payload, len, Exec(s, run));
      ExecAppend(s, run, more);
      run := run + more;
    }

    /** `process_t2h_data` once a packet was acquired. */
    method SendPacket(payload: nat, len: nat, ghost s: State) returns (rc: ReturnCode, ghost run: seq<Step>)
      requires Valid() && s.Ok() && s == Abs(Sending(payload, len, headerBuff[..], 0))
      requires ip.queue != [] && 0 < len <= ip.Head().len && payload == ip.c.base + ip.Head().where
      modifies ip`mem, ip`log, ip`queue, sendBuff, t2hData`output, t2hData`sendFails
      ensures Valid() && (rc == OK || rc == FAILURE)
      ensures Exec(s, run) == Abs(if rc == OK then Idle else Closed)
      ensures t2hData.sendFails == old(t2hData.sendFails) + if rc == OK then 0 else 1
    {
      rc := SendAll(t2hData, headerBuff, HEADER_BYTES);
      assert headerBuff[..HEADER_BYTES] == headerBuff[..];
      ghost var s2 := Abs(if rc == OK then Sending(payload, len, [], 0) else Closed);
      run := SendRun(s, t2hData.output, s2);
      if rc == OK {
        ghost var more;
        rc, more := SendPayload(payload, len, s2);
        ExecAppend(s, run, more);
        run := run + more;
        if rc == OK {
          more := Finish(Abs(Sending(payload, len, [], len)));
          ExecAppend(s, run, more);
          run := run + more;
        }
      }
    }

    /** `t2h_data_complete` */
    method Finish(ghost s: State) returns (ghost run: seq<Step>)
      requires Valid() && s.Ok() && s == Abs(s.pc) && s.pc.Sending? && s.pc.out == [] && s.pc.loaded == s.pc.len
      requires ip.queue != []
      modifies ip`mem, ip`log, ip`queue
      ensures Valid() && Exec(s, run) == Abs(Idle)
    {
      run := ip.DescriptorDone(s);
      ExecThen(s, run, Complete);
      run := run + [Complete];
    }

    /** The rounds of the client loop in which the T2H side is polled: each counts
        a packet or is an empty poll. */
    method ServeRounds(rounds: nat) returns (rc: ReturnCode, ghost run: seq<Step>)
      requires Valid() && t2hCnt == 0
      modifies this`sop, this`t2hCnt, headerBuff, sendBuff, ip, t2hData`output, t2hData`sendFails
      ensures Valid() && (rc == OK || rc == FAILURE)
      ensures Exec(old(Abs(Idle)), run) == Abs(if rc == OK then Idle else Closed)
      ensures t2hData.sendFails == old(t2hData.sendFails) + if rc == OK then 0 else 1
      ensures rc == OK ==> t2hCnt + (ip.emptyPolls - old(ip.emptyPolls)) == rounds
      ensures t2hCnt <= rounds
    {
      ghost var s := Abs(Idle);
      rc, run := OK, [];
      for i := 0 to rounds
        invariant Valid() && rc == OK && Exec(s, run) == Abs(Idle)
        invariant t2hData.sendFails == old(t2hData.sendFails)
        invariant t2hCnt <= i && t2hCnt + (ip.emptyPolls - old(ip.emptyPolls)) == i
      {
        ghost var more;
        rc, more := ProcessT2hData();
        ExecAppend(s, run, more);
        run := run + more;
        if rc != OK { break; }
      }
    }

    /** A session: what the client has received are the packets marked done, as
        far as 16-bit header fields allow, whole and in order. */
    method ServeT2h(rounds: nat) returns (rc: ReturnCode, ghost run: seq<Step>)
      requires Valid() && Initial(Abs(Idle))
      modifies this`sop, this`t2hCnt, headerBuff, sendBuff, ip, t2hData`output, t2hData`sendFails
      ensures Valid() && (rc == OK || rc == FAILURE)
      ensures Exec(old(Abs(Idle)), run) == Abs(if rc == OK then Idle else Closed)
      ensures t2hData.sendFails == old(t2hData.sendFails) + if rc == OK then 0 else 1
      ensures rc == OK ==> t2hCnt + (ip.emptyPolls - old(ip.emptyPolls)) == rounds
      ensures t2hCnt <= rounds
      ensures |ip.queue| <= |ip.log|
              && var sent := ip.log[..|ip.log| - |ip.queue|];
                 && t2hCnt == |sent| + (if rc == OK then 0 else 1)
                 && Wire(sent) <= t2hData.output && (rc == OK ==> t2hData.output == Wire(sent))
                 && Cuts(sent) <= Parse(t2hData.output) <= Cuts(ip.log)
      ensures ip.c.span < B16 ==> forall p :: p in ip.log ==> |p.payload| < B16
    {
      ghost var s := Abs(Idle);
      rc, run := ServeRounds(rounds);
      ExactlyOnce(s, run);
      ClientSeesPrefix(s, run);
    }
  }

  /** The boundary function cuts a payload into pieces on word boundaries. */
  lemma Pieces(c: Config, d: Descriptor, len: nat, first: nat)
    requires c.Valid() && WellPlaced(c, d) && len <= d.len
    requires first == WrapBoundary(c.base, c.span, c.base + d.where, len)
    ensures c.base + d.where == Address(c.base, c.span, d.where)
    ensures first == 0 ==> c.base + d.where + Aligned(len) <= c.base + c.span
    ensures first != 0 ==>
              && first < len && c.base + d.where + Aligned(first) <= c.base + c.span
              && Address(c.base, c.span, d.where + first) == c.base
              && c.base + Aligned(len - first) <= c.base + c.span
  {
    BoundaryValue(c.base, c.span, d.where, len);
    ModSmall(d.where, c.span);
    if first == 0 {
      AlignedFits(d.where, len, c.span);
    } else {
      PiecesMeet(c, d.where, first);
      AlignedFits(0, len - first, c.span);
    }
  }

  lemma PiecesMeet(c: Config, where: nat, first: nat)
    requires c.Valid() && IsWords(where) && where + first == c.span
    ensures Aligned(first) == first && Address(c.base, c.span, where + first) == c.base
  {
    AddWords(c.span, where);
    ModShift(0, 1, c.span);
    ModSmall(0, c.span);
  }

  lemma LoadNext(s: State, n: nat, bytes: seq<byte>)
    requires s.Ok() && s.queue != [] && s.pc.Sending? && s.pc.out == [] && s.pc.loaded + n <= s.pc.len
    requires s.pc.addr == s.c.base + s.queue[0].where && s.pc.loaded + n <= s.queue[0].len
    requires bytes == PayloadOf(s.c, s.mem, s.queue[0])[s.pc.loaded..s.pc.loaded + n]
    ensures Next(s, Load(n)) == s.(pc := s.pc.(out := bytes, loaded := s.pc.loaded + n))
  {
    ReadPart(s.mem, s.c.base, s.c.span, s.queue[0].where, s.queue[0].len, s.pc.loaded, n);
  }

  lemma HowLongWord(len: nat, last: bool, v: nat)
    requires v == Low31(len) + if last then B31 else 0
    ensures U16(Low31(v)) == U16(Low31(len)) == len % B16 <= len && Bit31(v) == last
  {
    LowBits(len);
  }

  lemma ConnWord(conn: byte, channel: nat, v: nat)
    requires v == conn as int + B32 * channel
    ensures v % 256 == conn && v / B32 == channel
  {
    ModOf(v, B32, channel, conn);
    ModOf(v, 256, B32 / 256 * channel, conn);
  }
}

/** The runs of the host-to-target link that the imperative server goes through. */
module H2tRuns {
  import opened Words
  import opened Circular
  import opened Packets
  import opened DebugIp
  import opened H2tDriver
  import opened H2tLink
  import opened H2tInvariant
  import opened H2tTheorems
  import opened H2tBounds
  import opened H2tSafety
  import opened Fpga
  import opened Driver

  function Retirements(k: nat): seq<Step> { seq(k, i => Retire) }

  lemma {:induction false} ExecRetirements(s: State, k: nat)
    requires s.Ok()
    ensures Exec(s, Retirements(k)) == s.(hw := RetireN(s.c, s.hw, k))
  {
    if k == 0 {
    } else {
      ExecRetirements(s, k - 1);
      assert Retirements(k) == Retirements(k - 1) + [Retire];
      ExecAppend(s, Retirements(k - 1), [Retire]);
      ExecOne(Exec(s, Retirements(k - 1)), Retire);
    }
  }

  /** The run continues with `k` retirements and one step of the server. */
  lemma ExecThen(s: State, run: seq<Step>, k: nat, step: Step, r: State)
    requires s.Ok() && r == Exec(s, run)
    ensures Exec(s, run + Retirements(k) + [step]) == Next(r.(hw := RetireN(r.c, r.hw, k)), step)
  {
    ExecAppend(s, run, Retirements(k));
    ExecRetirements(r, k);
    ExecAppend(s, run + Retirements(k), [step]);
    ExecOne(r.(hw := RetireN(r.c, r.hw, k)), step);
  }

  /** A store that does not run over the end of the buffer is one burst. */
  lemma LinearWrite(mem: Memory, base: nat, span: nat, start: nat, addr: nat, data: seq<byte>)
    requires Fits(mem, base, span) && addr == Address(base, span, start) && addr + |data| <= base + span
    ensures Write(mem, base, span, start, data) == Store(mem, addr, data)
  {
    var m := Write(mem, base, span, start, data);
    forall a | 0 <= a < |mem|
      ensures m[a] == Store(mem, addr, data)[a]
    {
      WriteIs(mem, base, span, start, data, a);
    }
  }

  /** Where in the payload the next word belongs. */
  function At(s: State): nat
    requires s.Ok() && s.pc.Copying?
  {
    s.SourceAt() + s.SourceStored()
  }

  /** The address of that position: straight on, or behind the wrap. */
  predicate Lands(s: State, addr: nat)
    requires s.Ok() && s.pc.Copying?
  {
    addr == s.pc.addr + At(s) || addr + s.c.span == s.pc.addr + At(s)
  }

  lemma LandsAt(s: State, addr: nat)
    requires s.Ok() && s.pc.Copying? && s.c.base <= s.pc.addr
    requires Lands(s, addr) && s.c.base <= addr < s.c.base + s.c.span
    ensures addr == Address(s.c.base, s.c.span, s.pc.addr - s.c.base + At(s))
  {
    ModSmall(addr - s.c.base, s.c.span);
    ModShift(addr - s.c.base, 1, s.c.span);
  }

  /** The first `n` 32-bit words of `bytes` are the next ones of the piece being
      received, and belong at `addr`. */
  ghost predicate CopiesTo(s: State, addr: nat, bytes: seq<byte>, n: nat)
    requires s.Ok()
  {
    && s.pc.Copying? && !s.pc.loss.Lost? && BufferFits(s.c, s.pc.addr, s.Head().len)
    && 4 * n <= |bytes| && s.SourceStored() + 4 * n <= Aligned(s.SourceLen())
    && s.c.base <= addr && addr + 4 * n <= s.c.base + s.c.span
    && (n > 0 ==> Lands(s, addr))
    && (s.SourceStored() + 4 * n <= |s.Source()| || s.SourceLen() <= |s.Source()|)
    && Carries(bytes, 4 * n, s.Source(), s.SourceLen(), s.SourceStored())
  }

  /** The first `n` of `bytes` are those of `source` from `stored` on, up to `len`. */
  ghost predicate Carries(bytes: seq<byte>, n: nat, source: seq<byte>, len: nat, stored: nat)
    requires n <= |bytes|
  {
    forall j :: 0 <= j < n && j < len - stored && j < |source| - stored ==> bytes[j] == source[stored + j]
  }

  function Copied(s: State, hw: Hw, n: nat): State {
    s.(hw := hw, pc := if s.pc.Copying? then Advanced(s.pc, n) else s.pc)
  }

  /** The next word of the piece being received. */
  ghost predicate WordTo(s: State, addr: nat, word: seq<byte>)
    requires s.Ok()
  {
    && s.pc.Copying? && !s.pc.loss.Lost? && |word| == 4
    && s.c.base <= s.pc.addr && s.c.base <= addr && addr + 4 <= s.c.base + s.c.span
    && Lands(s, addr)
    && StoresPayload(s.Source(), s.SourceLen(), s.SourceStored(), word)
  }

  /** The last word of a copy, once the others are stored. */
  lemma LastWord(s: State, addr: nat, bytes: seq<byte>, n: nat, hw: Hw, r: State)
    requires s.Ok() && CopiesTo(s, addr, bytes, n + 1)
    requires |hw.mem| == |s.hw.mem| && r == Copied(s, hw, 4 * n)
    ensures r.Ok() && WordTo(r, addr + 4 * n, Half(bytes, n))
  {
    AfterWords(s, hw, n, r);
    WordStores(bytes, n, s.Source(), s.SourceLen(), s.SourceStored());
  }

  lemma AfterWords(s: State, hw: Hw, n: nat, r: State)
    requires s.Ok() && s.pc.Copying? && !s.pc.loss.Lost? && |hw.mem| == |s.hw.mem| && r == Copied(s, hw, 4 * n)
    ensures r.Ok() && r.pc.Copying? && !r.pc.loss.Lost? && r.pc.addr == s.pc.addr && r.c == s.c
    ensures r.Source() == s.Source() && r.SourceLen() == s.SourceLen()
    ensures r.SourceStored() == s.SourceStored() + 4 * n && At(r) == At(s) + 4 * n
  {
  }

  lemma WordStores(bytes: seq<byte>, n: nat, source: seq<byte>, len: nat, stored: nat)
    requires 4 * (n + 1) <= |bytes| && stored + 4 * (n + 1) <= Aligned(len)
    requires stored + 4 * (n + 1) <= |source| || len <= |source|
    requires Carries(bytes, 4 * (n + 1), source, len, stored)
    ensures StoresPayload(source, len, stored + 4 * n, Half(bytes, n))
  {
    forall j | 0 <= j < 4 && stored + 4 * n + j < len && stored + 4 * n + j < |source|
      ensures Half(bytes, n)[j] == source[stored + 4 * n + j]
    {
      assert bytes[4 * n + j] == source[stored + (4 * n + j)];
    }
  }

  /** The word loop of the copy is a run of stores interleaved with retirements. */
  lemma {:induction false} CopyRun(s: State, addr: nat, bytes: seq<byte>, ks: seq<nat>, n: nat, r: State)
    returns (run: seq<Step>)
    requires s.Ok() && CopiesTo(s, addr, bytes, n) && n <= |ks|
    requires r == Copied(s, CopyTo(s.c, s.hw, addr, bytes, ks, n), 4 * n)
    ensures Exec(s, run) == r
    decreases n
  {
    if n == 0 {
      run := [];
    } else {
      var m := n - 1;
      var hw1, hw2, hw3 := CopyToStep(s.c, s.hw, addr, bytes, ks, m);
      FewerWords(s, addr, bytes, m);
      var s1 := Copied(s, hw1, 4 * m);
      var before := CopyRun(s, addr, bytes, ks, m, s1);
      LastStep(s, addr, bytes, m, hw1, hw2, hw3, s1, s1.(hw := hw2), r);
      ExecThen(s, before, ks[m], StoreBytes(Half(bytes, m)), s1);
      run := before + Retirements(ks[m]) + [StoreBytes(Half(bytes, m))];
    }
  }

  lemma FewerWords(s: State, addr: nat, bytes: seq<byte>, m: nat)
    requires s.Ok() && CopiesTo(s, addr, bytes, m + 1)
    ensures CopiesTo(s, addr, bytes, m)
  {
  }

  lemma CopyToStep(c: Config, hw: Hw, addr: nat, bytes: seq<byte>, ks: seq<nat>, m: nat) returns (hw1: Hw, hw2: Hw, hw3: Hw)
    requires c.Valid() && |hw.mem| == c.window
    requires m < |ks| && 4 * (m + 1) <= |bytes| && addr + 4 * (m + 1) <= c.window
    ensures |hw1.mem| == c.window && hw1 == CopyTo(c, hw, addr, bytes, ks, m)
    ensures hw2 == RetireN(c, hw1, ks[m])
    ensures hw3 == hw2.(mem := Store(hw2.mem, addr + 4 * m, Half(bytes, m)))
    ensures hw3 == CopyTo(c, hw, addr, bytes, ks, m + 1)
  {
    hw1 := CopyTo(c, hw, addr, bytes, ks, m);
    hw2 := RetireN(c, hw1, ks[m]);
    hw3 := hw2.(mem := Store(hw2.mem, addr + 4 * m, Half(bytes, m)));
  }

  lemma LastStep(s: State, addr: nat, bytes: seq<byte>, m: nat, hw1: Hw, hw2: Hw, hw3: Hw, s1: State, s2: State, r: State)
    requires s.Ok() && CopiesTo(s, addr, bytes, m + 1)
    requires |hw1.mem| == |hw2.mem| == |s.hw.mem|
    requires s1 == Copied(s, hw1, 4 * m) && s2 == s1.(hw := hw2)
    requires hw3 == hw2.(mem := Store(hw2.mem, addr + 4 * m, Half(bytes, m))) && r == Copied(s, hw3, 4 * (m + 1))
    ensures s2.Ok() && Next(s2, StoreBytes(Half(bytes, m))) == r
  {
    LastWord(s, addr, bytes, m, hw2, s2);
    CopyWord(s2, addr + 4 * m, Half(bytes, m));
    CopiedTwice(s, hw1, hw2, hw3, 4 * m);
  }

  lemma CopiedTwice(s: State, hw1: Hw, hw2: Hw, hw3: Hw, n: nat)
    ensures Copied(s, hw1, n).(hw := hw2) == Copied(s, hw2, n)
    ensures Copied(Copied(s, hw2, n), hw3, 4) == Copied(s, hw3, n + 4)
  {
  }

  lemma CopyWord(s: State, addr: nat, word: seq<byte>)
    requires s.Ok() && WordTo(s, addr, word)
    ensures Next(s, StoreBytes(word)) == Copied(s, s.hw.(mem := Store(s.hw.mem, addr, word)), 4)
  {
    LandsAt(s, addr);
    LinearWrite(s.hw.mem, s.c.base, s.c.span, s.pc.addr - s.c.base + At(s), addr, word);
  }

  // ---------- the phases of `process_h2t_data` ----------

  /** The header receive: all ten bytes, or fewer and the session is over. */
  lemma HeaderRun(s: State, data: seq<byte>, r: State) returns (run: seq<Step>)
    requires s.Ok() && s.pc == Receiving(0) && |data| <= HEADER_BYTES
    requires r == s.(rx := s.rx + data, hdr := r.hdr, pc := if |data| == HEADER_BYTES then Ready else Closed,
                     fails := s.fails + if |data| == HEADER_BYTES then 0 else 1)
    requires |r.hdr| == HEADER_BYTES
    requires forall i :: 0 <= i < HEADER_BYTES ==> r.hdr[i] == if i < |data| then data[i] else s.hdr[i]
    ensures Exec(s, run) == r
  {
    assert s.hdr[..0] + data + s.hdr[|data|..] == r.hdr;
    if |data| == HEADER_BYTES {
      run := [Recv(data)];
      ExecOne(s, Recv(data));
    } else {
      run := [Recv(data)] + [RecvFail];
      ExecCons(s, Recv(data), [RecvFail]);
      ExecOne(Next(s, Recv(data)), RecvFail);
    }
  }

  /** The poll and the allocation, after `k` more retirements. */
  lemma AllocRun(s: State, k: nat, hw: Hw, d: H2tDriver.Driver, addr: nat) returns (run: seq<Step>)
    requires s.Ok() && s.pc == Ready && hw == RetireN(s.c, s.hw, k)
    requires Polls(s.drv, AvailableSlots(s.c, hw))
    requires (d, addr) == GetBuffer(s.drv, AvailableSlots(s.c, hw), s.Head().len)
    ensures Exec(s, run) ==
            if addr == 0 then s.(hw := hw, drv := d, waiting := true)
            else s.(hw := hw, drv := d, waiting := false, count := s.count + 1, pc := Copying(addr, [], 0, Intact))
  {
    run := [] + Retirements(k) + [Alloc];
    ExecThen(s, [], k, Alloc, s);
  }

  /** What the server relies on afterwards: the buffer fits, or there is no room. */
  lemma AllocFits(s: State, longs: nat, k: nat, hw: Hw, d: H2tDriver.Driver, addr: nat, run: seq<Step>, r: State)
    requires Reached(s, longs) && s.Ok() && s.pc == Ready && hw == RetireN(s.c, s.hw, k) && r == Exec(s, run)
    requires Polls(s.drv, AvailableSlots(s.c, hw))
    requires (d, addr) == GetBuffer(s.drv, AvailableSlots(s.c, hw), s.Head().len)
    requires addr != 0 ==> r.pc.Copying? && r.pc.addr == addr && r.hdr == s.hdr && r.c == s.c
    requires addr == 0 ==> r == s.(hw := hw, drv := d, waiting := true)
    ensures addr != 0 ==> BufferFits(s.c, addr, s.Head().len)
    ensures addr == 0 ==> r.Ok() && !RoomNow(r, longs)
  {
    ReachedSane(s, longs);
    AlwaysSane(s, run);
    if addr == 0 {
      NoBufferNoRoom(s, AvailableSlots(s.c, hw), d, addr);
      StillWaits(s, longs, run, r);
      WaitsFull(r, longs);
    }
  }

  /** Both at once, for the state `r` that the server is in afterwards. */
  lemma Acquired(s: State, longs: nat, k: nat, hw: Hw, d: H2tDriver.Driver, addr: nat, r: State) returns (run: seq<Step>)
    requires Reached(s, longs) && s.Ok() && s.pc == Ready && hw == RetireN(s.c, s.hw, k)
    requires Polls(s.drv, AvailableSlots(s.c, hw))
    requires (d, addr) == GetBuffer(s.drv, AvailableSlots(s.c, hw), s.Head().len)
    requires r == if addr == 0 then s.(hw := hw, drv := d, waiting := true)
                  else s.(hw := hw, drv := d, waiting := false, count := s.count + 1, pc := Copying(addr, [], 0, Intact))
    ensures Exec(s, run) == r
    ensures addr != 0 ==> BufferFits(s.c, addr, s.Head().len)
    ensures addr == 0 ==> r.Ok() && !RoomNow(r, longs)
  {
    run := AllocRun(s, k, hw, d, addr);
    AllocFits(s, longs, k, hw, d, addr, run, r);
  }

  lemma ReachedSlots(s: State, longs: nat)
    requires Reached(s, longs)
    ensures s.drv.slots <= AvailableSlots(s.c, s.hw)
  {
    ReachedSane(s, longs);
    SaneReady(s);
  }

  lemma StillWaits(s: State, longs: nat, run: seq<Step>, r: State)
    requires Reached(s, longs) && s.Ok() && r == Exec(s, run) && r.count == s.count
    ensures Reached(r, longs)
  {
    NoLongs(s, run);
    RunsStayReachable(s, longs, run);
  }

  /** One piece of the payload: the next `len` bytes, which belong at `addr`. */
  ghost predicate PieceFits(s: State, addr: nat, len: nat)
    requires s.Ok()
  {
    && s.pc.Copying? && !s.pc.loss.Lost? && BufferFits(s.c, s.pc.addr, s.Head().len)
    && |s.Source()| == s.SourceStored() && s.SourceStored() + len <= s.SourceLen()
    && s.SourceStored() + Aligned(len) <= Aligned(s.SourceLen())
    && (IsWords(len) || s.SourceStored() + len == s.SourceLen())
    && s.c.base <= addr && addr + Aligned(len) <= s.c.base + s.c.span
    && (len > 0 ==> Lands(s, addr))
  }

  /** The boundary function cuts a fresh buffer into pieces that fit. */
  lemma FirstPiece(s: State, first: nat)
    requires s.Ok() && s.pc.Copying? && BufferFits(s.c, s.pc.addr, s.Head().len)
    requires s.pc == Copying(s.pc.addr, [], 0, Intact) && first == s.Boundary()
    ensures first == 0 ==> PieceFits(s, s.pc.addr, s.Head().len)
    ensures first != 0 ==>
              && first < s.Head().len && s.pc.addr + first == s.c.base + s.c.span
              && IsWords(first) && PieceFits(s, s.pc.addr, first)
  {
    PieceRoom(s.c, s.pc.addr, s.Head().len, first);
  }

  lemma PieceRoom(c: Config, addr: nat, len: nat, first: nat)
    requires c.Valid() && BufferFits(c, addr, len) && first == WrapBoundary(c.base, c.span, addr, len)
    ensures first == 0 ==> addr + Aligned(len) <= c.base + c.span
    ensures first != 0 ==> first < len && addr + first == c.base + c.span && IsWords(first) && Aligned(first) == first <= Aligned(len)
  {
    var off := addr - c.base;
    BoundaryValue(c.base, c.span, off, len);
    AddWords(addr, c.base);
    AddWords(c.span, off);
    if first == 0 { AlignedFits(off, len, c.span); } else { AlignedWords(first, len); }
  }

  lemma AlignedWords(n: nat, len: nat)
    requires IsWords(n) && n <= len
    ensures Aligned(n) == n <= Aligned(len)
  {
  }

  /** The second piece, whether or not the first was lost. */
  lemma SecondPiece(s: State, first: nat)
    requires s.Ok() && s.pc.Copying? && BufferFits(s.c, s.pc.addr, s.Head().len) && first == s.Boundary()
    requires first < s.Head().len && s.pc.addr + first == s.c.base + s.c.span && IsWords(first)
    requires s.pc.loss == FirstLost([], 0) || (s.pc.loss.Intact? && s.pc.stored == |s.pc.got| == first)
    ensures PieceFits(s, s.c.base, s.Head().len - first)
  {
    assert At(s) == first;
  }

  function Got(s: State, data: seq<byte>): State {
    s.(rx := s.rx + data, pc := if s.pc.Copying? then Received(s.pc, data) else s.pc)
  }

  /** A piece that arrives whole is stored. */
  lemma PieceRun(s: State, s1: State, addr: nat, data: seq<byte>, words: seq<byte>, ks: seq<nat>, r: State)
    returns (run: seq<Step>)
    requires s.Ok() && s1 == Next(s, Recv(data)) && CopiesTo(s1, addr, words, |ks|)
    requires r == Copied(s1, CopyTo(s1.c, s1.hw, addr, words, ks, |ks|), 4 * |ks|)
    ensures Exec(s, run) == r
  {
    var rest := CopyRun(s1, addr, words, ks, |ks|, r);
    run := [Recv(data)] + rest;
    ExecCons(s, Recv(data), rest);
  }

  lemma RecvPiece(s: State, addr: nat, len: nat, data: seq<byte>)
    requires s.Ok() && PieceFits(s, addr, len) && |data| <= len
    ensures Next(s, Recv(data)) == Got(s, data)
  {
  }

  lemma PieceCopies(s: State, addr: nat, data: seq<byte>, words: seq<byte>, n: nat, r: State)
    requires s.Ok() && PieceFits(s, addr, |data|) && r == Got(s, data)
    requires data <= words && |words| == Aligned(|data|) == 4 * n
    ensures r.Ok() && CopiesTo(r, addr, words, n) && r.c == s.c && r.hw == s.hw
  {
    GotIs(s, data, r);
    if IsWords(|data|) { AlignedWords(|data|, |data|); }
    PieceCarries(words, data, s.Source(), s.SourceLen());
  }

  lemma GotIs(s: State, data: seq<byte>, r: State)
    requires s.Ok() && s.pc.Copying? && !s.pc.loss.Lost? && r == Got(s, data)
    ensures r.Ok() && r.pc.Copying? && !r.pc.loss.Lost? && r.pc.addr == s.pc.addr && r.c == s.c && r.hdr == s.hdr
    ensures r.Source() == s.Source() + data && r.SourceLen() == s.SourceLen()
    ensures r.SourceStored() == s.SourceStored() && At(r) == At(s)
  {
  }

  lemma PieceCarries(words: seq<byte>, data: seq<byte>, source: seq<byte>, len: nat)
    requires data <= words
    ensures Carries(words, |words|, source + data, len, |source|)
  {
  }

  /** A piece that does not arrive whole is not stored, and the failure is not reported. */
  lemma LostRun(s: State, addr: nat, len: nat, data: seq<byte>) returns (run: seq<Step>)
    requires s.Ok() && PieceFits(s, addr, len) && |data| < len
    ensures var r := Got(s, data);
            Exec(s, run) == r.(fails := s.fails + 1, pc := Failed(r.pc, s.Boundary()))
  {
    RecvPiece(s, addr, len, data);
    run := [Recv(data)] + [RecvFail];
    ExecCons(s, Recv(data), [RecvFail]);
    ExecOne(Got(s, data), RecvFail);
  }

  /** The packet after `data` of the `len` bytes of a piece have arrived. */
  function AfterPiece(pc: Pc, boundary: nat, data: seq<byte>, len: nat): (r: Pc)
    requires pc.Copying? && |data| <= len
    ensures r.Copying? && r.addr == pc.addr
    ensures r.loss.Intact? <==> pc.loss.Intact? && |data| == len
  {
    if |data| < len then Failed(Received(pc, data), boundary) else Advanced(Received(pc, data), Aligned(len))
  }

  /** After its second piece the packet is ready to push. */
  lemma SecondDone(s: State, first: nat, data: seq<byte>, r: State)
    requires s.Ok() && s.pc.Copying? && first == s.Boundary() && first < s.Head().len && |data| <= s.Head().len - first
    requires IsWords(first)
    requires s.pc.loss == FirstLost([], 0) || (s.pc.loss.Intact? && s.pc.stored == |s.pc.got| == first)
    requires r.Ok() && r.c == s.c && r.hdr == s.hdr && r.pc == AfterPiece(s.pc, first, data, s.Head().len - first)
    ensures Pushable(r)
  {
    AlignedSplit(first, s.Head().len);
  }

  lemma PieceResult(s: State, addr: nat, len: nat, data: seq<byte>, words: seq<byte>, ks: seq<nat>, r: State)
    returns (run: seq<Step>)
    requires s.Ok() && PieceFits(s, addr, len) && |data| <= len
    requires |data| == len ==> data <= words && |words| == Aligned(len) == 4 * |ks|
    requires r == s.(rx := s.rx + data, fails := s.fails + (if |data| < len then 1 else 0),
                     pc := AfterPiece(s.pc, s.Boundary(), data, len),
                     hw := if |data| < len then s.hw else CopyTo(s.c, s.hw, addr, words, ks, |ks|))
    ensures Exec(s, run) == r
  {
    if |data| < len {
      run := LostRun(s, addr, len, data);
    } else {
      RecvPiece(s, addr, len, data);
      PieceCopies(s, addr, data, words, |ks|, Got(s, data));
      run := PieceRun(s, Got(s, data), addr, data, words, ks, r);
    }
  }

  lemma PieceRange(s: State, addr: nat, len: nat)
    requires s.Ok() && PieceFits(s, addr, len)
    ensures REGISTERS_END <= addr && addr + Aligned(len) <= s.c.window && Aligned(len) <= s.c.span
  {
  }

  /** The push, with retirements before either store. */
  lemma PushRun(s: State, k1: nat, k2: nat, hw1: Hw, hw2: Hw, r: State) returns (run: seq<Step>)
    requires s.Ok() && s.pc.Copying? && Pushable(s)
    requires hw1 == Write64(s.c, RetireN(s.c, s.hw, k1), H2T_HOW_LONG, HowLongWhere(s.Head().len, s.Head().Eop(), s.pc.addr))
    requires hw2 == Write64(s.c, RetireN(s.c, hw1, k2), H2T_CONNECTION_ID, ConnChannel(s.Head().conn, s.Head().channel))
    requires r == s.(drv := s.drv.(slots := U16(s.drv.slots - 1)), hw := hw2, pc := Receiving(0))
    ensures Exec(s, run) == r
  {
    var s1 := s.(drv := s.drv.(slots := U16(s.drv.slots - 1)), hw := hw1, pc := Pushing(s.pc.got));
    var first := FirstWordRun(s, k1, hw1, s1);
    ExecThen(s, first, k2, PushConn, s1);
    SecondWord(s1.(hw := RetireN(s.c, hw1, k2)), hw2, r);
    run := first + Retirements(k2) + [PushConn];
  }

  lemma FirstWordRun(s: State, k: nat, hw: Hw, r: State) returns (run: seq<Step>)
    requires s.Ok() && s.pc.Copying? && Pushable(s)
    requires hw == Write64(s.c, RetireN(s.c, s.hw, k), H2T_HOW_LONG, HowLongWhere(s.Head().len, s.Head().Eop(), s.pc.addr))
    requires r == s.(drv := s.drv.(slots := U16(s.drv.slots - 1)), hw := hw, pc := Pushing(s.pc.got))
    ensures Exec(s, run) == r
  {
    run := [] + Retirements(k) + [PushHowLong];
    ExecThen(s, [], k, PushHowLong, s);
    FirstWord(s.(hw := RetireN(s.c, s.hw, k)), hw, r);
  }

  lemma FirstWord(s: State, hw: Hw, r: State)
    requires s.Ok() && s.pc.Copying? && Pushable(s)
    requires hw == Write64(s.c, s.hw, H2T_HOW_LONG, HowLongWhere(s.Head().len, s.Head().Eop(), s.pc.addr))
    requires r == s.(drv := s.drv.(slots := U16(s.drv.slots - 1)), hw := hw, pc := Pushing(s.pc.got))
    ensures Next(s, PushHowLong) == r
  {
  }

  lemma SecondWord(s: State, hw: Hw, r: State)
    requires s.Ok() && s.pc.Pushing?
    requires hw == Write64(s.c, s.hw, H2T_CONNECTION_ID, ConnChannel(s.Head().conn, s.Head().channel))
    requires r == s.(hw := hw, pc := Receiving(0))
    ensures Next(s, PushConn) == r
  {
  }
}

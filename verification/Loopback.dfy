/** What server loopback sends back: payloads bypass the allocator and go
    through FPGA memory at its base. */
module Loopback {
  import opened Words
  import opened Circular
  import opened Packets
  import opened DebugIp
  import opened Sockets

  /** A payload received at the memory base is stored in one or two pieces, both
      starting at the base, and read back linearly. `pad` is what the staging
      buffer holds behind the last piece. */
  function Echo(mem: Memory, base: nat, span: nat, payload: seq<byte>, pad: seq<byte>): (r: seq<byte>)
    requires base + |payload| + |pad| <= |mem|
    ensures |r| == |payload|
  {
    var first := WrapBoundary(base, span, base, |payload|);
    var stored := if first != 0 && first <= |payload|
                  then Store(Store(mem, base, payload[..first]), base, payload[first..] + pad)
                  else Store(mem, base, payload + pad);
    Load(stored, base, |payload|)
  }

  /** A payload that fits the memory comes back as it was received. */
  lemma EchoFits(mem: Memory, base: nat, span: nat, payload: seq<byte>, pad: seq<byte>)
    requires 0 < span && base + span <= B31 && base + |payload| + |pad| <= |mem| && |payload| <= span
    ensures Echo(mem, base, span, payload, pad) == payload
  {
  }

  /** Loopback is the identity exactly on payloads that fit the memory: of a
      longer one, the bytes beyond the memory size overwrite the first ones. */
  lemma LoopbackDecides(mem: Memory, base: nat, span: nat, n: nat, pad: seq<byte>)
    requires 0 < span && base + span <= B31 && base + n + |pad| <= |mem|
    ensures (forall p: seq<byte> :: |p| == n ==> Echo(mem, base, span, p, pad) == p) <==> n <= span
  {
    if n <= span {
      forall p: seq<byte> | |p| == n
        ensures Echo(mem, base, span, p, pad) == p
      {
        EchoFits(mem, base, span, p, pad);
      }
    } else {
      assert WrapBoundary(base, span, base, n) == span;
      var p: seq<byte> := seq(n, i => if i == span then 1 else 0);
      LongEcho(mem, base, span, p, pad, 0);
      assert Echo(mem, base, span, p, pad)[0] == p[span] != p[0];
    }
  }

  /** What comes back of a longer payload, byte by byte: its end with the padding,
      then the rest of its beginning, then whatever lies behind the memory. */
  lemma LongEcho(mem: Memory, base: nat, span: nat, p: seq<byte>, pad: seq<byte>, i: nat)
    requires 0 < span < |p| && base + span <= B31 && base + |p| + |pad| <= |mem| && i < |p|
    ensures Echo(mem, base, span, p, pad)[i]
         == if i < |p| - span then p[span + i]
            else if i < |p| - span + |pad| then pad[i - (|p| - span)]
            else if i < span then p[i]
            else mem[base + i]
  {
    assert WrapBoundary(base, span, base, |p|) == span;
    assert (p[span..] + pad)[..|p| - span] == p[span..];
  }

  // ---------- the pieces in memory ----------

  /** The staging buffers hold both pieces of a payload of up to `span + 64`
      bytes, and so does the window. */
  lemma StagedFits(c: Config, len: nat)
    requires c.Valid() && len <= c.span + PACKET_HEADER_SIZE && c.base + c.span + PACKET_HEADER_SIZE <= c.window
    ensures Aligned(len) <= c.span + PACKET_HEADER_SIZE
    ensures var first := WrapBoundary(c.base, c.span, c.base, len);
            && first == (if len > c.span then c.span else 0)
            && Aligned(first) == first && Aligned(len - first) <= Aligned(len)
  {
    var words := c.span / 8;
    assert c.span == 8 * words;
    if len > c.span { assert Aligned(c.span) == c.span; }
  }

  /** Storing the two pieces one after the other leaves the echo. */
  lemma TwoPieces(mem: Memory, base: nat, span: nat, data: seq<byte>, data2: seq<byte>, pad: seq<byte>)
    requires 0 < span <= B31 && |data| == span && data2 != []
    requires base + |data| + |data2| + |pad| <= |mem|
    ensures Load(Store(Store(mem, base, data), base, data2 + pad), base, |data + data2|)
         == Echo(mem, base, span, data + data2, pad)
  {
    var payload := data + data2;
    assert payload[..span] == data && payload[span..] == data2;
    assert WrapBoundary(base, span, base, |payload|) == span;
  }

  /** A header and what has been received of its payload. */
  lemma WholePacket(hdr: seq<byte>, data: seq<byte>)
    requires |hdr| == HEADER_BYTES && |data| <= Decode(hdr).len
    ensures HasPacket(hdr + data) <==> |data| == Decode(hdr).len
    ensures HasPacket(hdr + data) ==> FirstLen(hdr + data) == |hdr + data|
    ensures (hdr + data)[..HEADER_BYTES] == hdr && (hdr + data)[HEADER_BYTES..] == data
  {
  }

  /** `got` is one whole packet, and the client's stream grew from `before` to
      `after` by its header and the echo of its payload, or by a part of that. */
  ghost predicate Echoed(c: Config, mem: Memory, got: seq<byte>, pad: seq<byte>, before: seq<byte>, after: seq<byte>, all: bool) {
    && HasPacket(got) && FirstLen(got) == |got|
    && |pad| < 8 && c.base + (|got| - HEADER_BYTES) + |pad| <= |mem|
    && var back := got[..HEADER_BYTES] + Echo(mem, c.base, c.span, got[HEADER_BYTES..], pad);
    && before <= after <= before + back
    && (all ==> after == before + back)
  }

  // ---------- the next packet of the stream ----------

  /** Every header met while parsing `s` announces at most `max` payload bytes. */
  predicate Announces(s: seq<byte>, max: nat)
    decreases |s|
  {
    |s| >= HEADER_BYTES ==>
      Decode(s[..HEADER_BYTES]).len <= max && (HasPacket(s) ==> Announces(s[FirstLen(s)..], max))
  }

  /** So does the header that follows a whole number of packets. */
  lemma {:induction false} NextHeader(done: seq<byte>, more: seq<byte>, max: nat)
    requires Announces(done + more, max) && Rest(done) == [] && |more| >= HEADER_BYTES
    ensures Decode(more[..HEADER_BYTES]).len <= max
    decreases |done|
  {
    if done == [] {
      assert done + more == more;
    } else {
      var n := FirstLen(done);
      assert (done + more)[..HEADER_BYTES] == done[..HEADER_BYTES];
      assert (done + more)[n..] == done[n..] + more;
      NextHeader(done[n..], more, max);
    }
  }

  lemma NextInStream(input: seq<byte>, start: nat, max: nat)
    requires Announces(input, max) && start <= |input| && Rest(input[..start]) == []
    ensures start + HEADER_BYTES <= |input| ==> Decode(input[start..start + HEADER_BYTES]).len <= max
  {
    if start + HEADER_BYTES <= |input| {
      assert input == input[..start] + input[start..];
      assert input[start..][..HEADER_BYTES] == input[start..start + HEADER_BYTES];
      NextHeader(input[..start], input[start..], max);
    }
  }

  lemma HeaderReceived(input: seq<byte>, done: seq<byte>, got: seq<byte>, max: nat)
    requires Announces(input, max) && done + got <= input && Rest(done) == [] && |got| >= HEADER_BYTES
    ensures Decode(got[..HEADER_BYTES]).len <= max
  {
    var more := input[|done|..];
    assert input == done + more && more[..HEADER_BYTES] == got[..HEADER_BYTES];
    NextHeader(done, more, max);
  }

  /** If its packets fit the memory, the next packet of a stream comes back. */
  lemma EchoInStream(input: seq<byte>, done: seq<byte>, got: seq<byte>, c: Config, mem: Memory,
                     pad: seq<byte>, before: seq<byte>, after: seq<byte>, all: bool)
    requires c.Valid() && Announces(input, c.span) && done + got <= input && Rest(done) == []
    requires Echoed(c, mem, got, pad, before, after, all)
    ensures before <= after <= before + got && (all ==> after == before + got)
  {
    HeaderReceived(input, done, got, c.span);
    EchoFits(mem, c.base, c.span, got[HEADER_BYTES..], pad);
  }

  /** Receiving exactly one packet adds one; stopping inside a packet leaves an
      incomplete one. */
  lemma AfterRound(done: seq<byte>, got: seq<byte>)
    requires Rest(done) == []
    ensures !HasPacket(got) ==> Rest(done + got) == got
    ensures HasPacket(got) && FirstLen(got) == |got| ==>
              Rest(done + got) == [] && |Parse(done + got)| == |Parse(done)| + 1
  {
    ParseAppend(done, got);
    assert [] + got == got;
    if HasPacket(got) && FirstLen(got) == |got| {
      assert got[FirstLen(got)..] == [] && Parse([]) == [];
      assert |Parse(got)| == 1;
    }
  }
}

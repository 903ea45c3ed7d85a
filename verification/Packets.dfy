/** The packet format of the H2T and T2H streams: a 4-byte guardband, a 6-byte
    header and the payload. */
module Packets {
  import opened Words

  const GUARDBAND: seq<byte> := [0xDE, 0xAD, 0xBE, 0xEF]
  const HEADER_BYTES: nat := 10

  /** A packet as both ends see it; SOP and the guardband are framing only. */
  datatype Packet = Packet(conn: byte, channel: nat, eop: bool, payload: seq<byte>)

  /** `H2T_PACKET_HEADER` */
  datatype Header = Header(sopEop: byte, conn: byte, channel: nat, len: nat) {
    predicate Sop() { sopEop % 2 == 1 }
    predicate Eop() { sopEop / 2 % 2 == 1 }
    predicate Valid() { channel < B16 && len < B16 }
  }

  /** The struct the server finds when it casts its header buffer. */
  function Decode(h: seq<byte>): (r: Header)
    requires |h| == HEADER_BYTES
    ensures r.Valid()
  {
    Header(h[4], h[5], h[6] as int + 256 * (h[7] as int), h[8] as int + 256 * (h[9] as int))
  }

  /** `populate_h2t_packet_header` */
  function PacketHeader(sop: byte, eop: byte, conn: byte, channel: nat, len: nat): Header {
    Header(sop % 2 + eop % 2 * 2, conn, channel, len)
  }

  /** The bytes of a header whose flag byte is `sopEop`. */
  function Encode(h: Header): (b: seq<byte>)
    requires h.Valid()
    ensures |b| == HEADER_BYTES
  {
    GUARDBAND + [h.sopEop, h.conn, h.channel % 256, h.channel / 256, h.len % 256, h.len / 256]
  }

  method PopulateGuardband(bytes: array<byte>)
    requires bytes.Length >= 4
    modifies bytes
    ensures bytes[..4] == [0xDE, 0xAD, 0xBE, 0xEF] == GUARDBAND
    ensures bytes[4..] == old(bytes[4..])
  {
    for i := 0 to 4
      invariant bytes[..i] == GUARDBAND[..i]
      invariant bytes[4..] == old(bytes[4..])
    {
      bytes[i] := GUARDBAND[i];
    }
  }

  /** `populate_h2t_packet_header_bytes`, at `bytes + at` */
  method PopulateHeaderBytes(bytes: array<byte>, at: nat, sop: byte, eop: byte, conn: byte, channel: nat, len: nat)
    requires at + 6 <= bytes.Length && channel < B16 && len < B16
    modifies bytes
    ensures bytes[at..at + 6]
         == [sop % 2 + 2 * (eop % 2), conn, channel % 256, channel / 256, len % 256, len / 256]
         == Encode(PacketHeader(sop, eop, conn, channel, len))[4..]
    ensures bytes[..at] == old(bytes[..at]) && bytes[at + 6..] == old(bytes[at + 6..])
  {
    bytes[at] := sop % 2 + eop % 2 * 2;
    bytes[at + 1] := conn;
    bytes[at + 2] := channel % 256;
    bytes[at + 3] := channel / 256;
    bytes[at + 4] := len % 256;
    bytes[at + 5] := len / 256;
  }

  /** `populate_h2t_packet_bytes` */
  method PopulatePacketBytes(bytes: array<byte>, sop: byte, eop: byte, conn: byte, channel: nat, len: nat)
    requires bytes.Length >= HEADER_BYTES && channel < B16 && len < B16
    modifies bytes
    ensures bytes[..10]
         == [0xDE, 0xAD, 0xBE, 0xEF, sop % 2 + 2 * (eop % 2), conn, channel % 256, channel / 256, len % 256, len / 256]
         == Encode(PacketHeader(sop, eop, conn, channel, len))
    ensures bytes[HEADER_BYTES..] == old(bytes[HEADER_BYTES..])
  {
    PopulateGuardband(bytes);
    PopulateHeaderBytes(bytes, 4, sop, eop, conn, channel, len);
  }

  /** Every header survives the trip over the wire, flags included; and a
      received header is one the encoder makes exactly when its guardband is
      intact. */
  lemma HeaderRoundTrip(sop: byte, eop: byte, conn: byte, channel: nat, len: nat, h: seq<byte>)
    requires channel < B16 && len < B16 && |h| == HEADER_BYTES
    ensures var r := Decode(Encode(PacketHeader(sop, eop, conn, channel, len)));
            && r == PacketHeader(sop, eop, conn, channel, len)
            && r.Sop() == (sop % 2 == 1) && r.Eop() == (eop % 2 == 1)
    ensures Encode(Decode(h)) == h <==> h[..4] == GUARDBAND
  {
    var r := PacketHeader(sop, eop, conn, channel, len);
    assert Encode(r)[6..] == [r.channel % 256, r.channel / 256, r.len % 256, r.len / 256];
    assert h == h[..4] + h[4..];
    assert Encode(Decode(h))[4..] == h[4..];
    assert Encode(Decode(h))[..4] == GUARDBAND;
  }

  /** What each received byte means: flags, connection, then two little-endian
      16-bit fields. */
  lemma DecodeLayout(h: seq<byte>)
    requires |h| == 10
    ensures var r := Decode(h);
            && r.Sop() == (h[4] % 2 == 1) && r.Eop() == (h[4] / 2 % 2 == 1)
            && r.conn == h[5] && r.channel == Le(h[6..8]) && r.len == Le(h[8..10])
  {
    LeTwo(h[6..8]);
    LeTwo(h[8..10]);
  }

  lemma LeTwo(b: seq<byte>)
    requires |b| == 2
    ensures Le(b) == b[0] as int + 256 * (b[1] as int)
  {
    assert Le(b[1..]) == b[1] as int + 256 * Le(b[1..][1..]);
  }

  // ---------- the stream ----------

  function PacketOf(h: seq<byte>, payload: seq<byte>): Packet
    requires |h| == HEADER_BYTES
  {
    var d := Decode(h);
    Packet(d.conn, d.channel, d.Eop(), payload)
  }

  /** The stream starts with a whole packet. */
  predicate HasPacket(s: seq<byte>) {
    |s| >= HEADER_BYTES && |s| >= HEADER_BYTES + Decode(s[..HEADER_BYTES]).len
  }

  function FirstLen(s: seq<byte>): (n: nat)
    requires HasPacket(s)
    ensures HEADER_BYTES <= n <= |s|
  {
    HEADER_BYTES + Decode(s[..HEADER_BYTES]).len
  }

  /** The whole packets of a stream, and the bytes after the last of them. */
  function Parse(s: seq<byte>): seq<Packet>
    decreases |s|
  {
    if !HasPacket(s) then []
    else [PacketOf(s[..HEADER_BYTES], s[HEADER_BYTES..FirstLen(s)])] + Parse(s[FirstLen(s)..])
  }

  function Rest(s: seq<byte>): (r: seq<byte>)
    ensures !HasPacket(r)
    decreases |s|
  {
    if !HasPacket(s) then s else Rest(s[FirstLen(s)..])
  }

  /** Parsing is incremental. */
  lemma {:induction false} ParseAppend(a: seq<byte>, b: seq<byte>)
    ensures Parse(a + b) == Parse(a) + Parse(Rest(a) + b)
    ensures Rest(a + b) == Rest(Rest(a) + b)
    decreases |a|
  {
    if !HasPacket(a) {
    } else {
      StartsAlike(a, b);
      ParseAppend(a[FirstLen(a)..], b);
    }
  }

  /** A whole packet is found whatever follows it. */
  lemma StartsAlike(a: seq<byte>, b: seq<byte>)
    requires HasPacket(a)
    ensures HasPacket(a + b) && FirstLen(a + b) == FirstLen(a)
    ensures (a + b)[..HEADER_BYTES] == a[..HEADER_BYTES]
    ensures (a + b)[HEADER_BYTES..FirstLen(a)] == a[HEADER_BYTES..FirstLen(a)]
    ensures (a + b)[FirstLen(a)..] == a[FirstLen(a)..] + b
  {
    assert (a + b)[..HEADER_BYTES] == a[..HEADER_BYTES];
  }

  /** A longer stream parses to more packets. */
  lemma ParsePrefix(a: seq<byte>, b: seq<byte>)
    requires a <= b
    ensures Parse(a) <= Parse(b)
  {
    assert b == a + b[|a|..];
    ParseAppend(a, b[|a|..]);
  }

  /** What a client puts on the wire for one packet. */
  datatype Frame = Frame(sop: byte, eop: byte, conn: byte, channel: nat, payload: seq<byte>) {
    predicate Valid() { channel < B16 && |payload| < B16 }

    function Bytes(): seq<byte>
      requires Valid()
    {
      Encode(PacketHeader(sop, eop, conn, channel, |payload|)) + payload
    }

    function AsPacket(): Packet { Packet(conn, channel, eop % 2 == 1, payload) }
  }

  /** A frame byte by byte, and the packet it stands for. */
  lemma FrameLayout(f: Frame)
    requires f.Valid()
    ensures f.Bytes()
         == [0xDE, 0xAD, 0xBE, 0xEF, f.sop % 2 + 2 * (f.eop % 2), f.conn, f.channel % 256, f.channel / 256,
             |f.payload| % 256, |f.payload| / 256] + f.payload
    ensures f.AsPacket() == Packet(f.conn, f.channel, f.eop % 2 == 1, f.payload)
  {
  }

  /** The packet of a header and a payload, by the header's bytes. */
  lemma PacketLayout(h: seq<byte>, payload: seq<byte>)
    requires |h| == 10
    ensures PacketOf(h, payload) == Packet(h[5], Le(h[6..8]), h[4] / 2 % 2 == 1, payload)
  {
    DecodeLayout(h);
  }

  function Stream(fs: seq<Frame>): seq<byte>
    requires forall f :: f in fs ==> f.Valid()
  {
    if fs == [] then [] else fs[0].Bytes() + Stream(fs[1..])
  }

  function PacketsOf(fs: seq<Frame>): (r: seq<Packet>)
    ensures |r| == |fs|
  {
    seq(|fs|, i requires 0 <= i < |fs| => fs[i].AsPacket())
  }

  /** The encoder's stream parses back to its packets, with nothing left over. */
  lemma {:induction false} ParseStream(fs: seq<Frame>)
    requires forall f :: f in fs ==> f.Valid()
    ensures Parse(Stream(fs)) == PacketsOf(fs) && Rest(Stream(fs)) == []
  {
    if fs == [] {
    } else {
      var f := fs[0];
      assert f in fs && f.Valid();
      var s := Stream(fs);
      var h := Encode(PacketHeader(f.sop, f.eop, f.conn, f.channel, |f.payload|));
      HeaderRoundTrip(f.sop, f.eop, f.conn, f.channel, |f.payload|, h);
      assert s[..HEADER_BYTES] == h;
      assert HasPacket(s);
      assert s[HEADER_BYTES..FirstLen(s)] == f.payload;
      assert s[FirstLen(s)..] == Stream(fs[1..]);
      ParseStream(fs[1..]);
      assert PacketsOf(fs) == [f.AsPacket()] + PacketsOf(fs[1..]);
    }
  }
}

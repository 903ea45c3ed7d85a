/** The byte-stream helpers over sockets whose every call may transfer any
    positive number of bytes or fail. */
module Sockets {
  import opened Words

  /** Spare bytes of the two staging buffers. */
  const PACKET_HEADER_SIZE: nat := 64

  datatype ReturnCode = OK | FAILURE | INIT_ERR

  /** One end of a connection. `input` is everything the peer will ever send;
      `pos` bytes of it have been received. `output` is what was sent to it. The
      two counters record how many calls have failed. */
  class Socket {
    const input: seq<byte>
    var pos: nat
    var output: seq<byte>
    ghost var recvFails: nat
    ghost var sendFails: nat

    constructor (stream: seq<byte>)
      ensures input == stream && pos == 0 && output == [] && recvFails == sendFails == 0
    {
      input, pos, output, recvFails, sendFails := stream, 0, [], 0, 0;
    }

    predicate Valid()
      reads this
    {
      pos <= |input|
    }

    /** What `recv` has returned so far. */
    function Received(): seq<byte>
      requires Valid()
      reads this
    {
      input[..pos]
    }

    /** `recv` into `buff + at`: between 1 and `max` bytes, or a result of at most 0. */
    method Recv(buff: array<byte>, at: nat, max: nat) returns (n: int)
      requires Valid() && at + max <= buff.Length
      modifies this`pos, this`recvFails, buff
      ensures recvFails == old(recvFails) + if n > 0 then 0 else 1
      ensures Valid() && n <= max && pos == old(pos) + if n > 0 then n else 0
      ensures buff[..at] == old(buff[..at])
      ensures forall i :: at + (if n > 0 then n else 0) <= i < buff.Length ==> buff[i] == old(buff[i])
      ensures n > 0 ==> buff[at..at + n] == input[old(pos)..pos]
      ensures n <= 0 ==> buff[..] == old(buff[..])
    {
      n := *;
      if n > max || n > |input| - pos { n := -1; }
      if n > 0 {
        for i := 0 to n
          invariant pos == old(pos) && recvFails == old(recvFails)
          invariant buff[..at] == old(buff[..at])
          invariant forall j :: at + n <= j < buff.Length ==> buff[j] == old(buff[j])
          invariant buff[at..at + i] == input[pos..pos + i]
        {
          buff[at + i] := input[pos + i];
        }
        pos := pos + n;
      } else {
        recvFails := recvFails + 1;
      }
    }

    /** `send` of a non-empty buffer: between 1 and all of its bytes, or a result of at most 0. */
    method Send(data: seq<byte>) returns (n: int)
      modifies this`output, this`sendFails
      ensures n <= |data| && sendFails == old(sendFails) + if n > 0 then 0 else 1
      ensures output == old(output) + if n > 0 then data[..n] else []
    {
      n := *;
      if n > |data| { n := -1; }
      if n > 0 {
        output := output + data[..n];
      } else {
        sendFails := sendFails + 1;
      }
    }
  }

  /** `socket_send_all`: exactly the buffer, or a proper prefix of it and FAILURE. */
  method SendAll(sock: Socket, buff: array<byte>, len: nat) returns (rc: ReturnCode)
    requires len <= buff.Length
    modifies sock`output, sock`sendFails
    ensures sock.sendFails == old(sock.sendFails) + if rc == OK then 0 else 1
    ensures rc == OK ==> sock.output == old(sock.output) + buff[..len]
    ensures rc != OK ==>
              rc == FAILURE && old(sock.output) <= sock.output < old(sock.output) + buff[..len]
  {
    var remaining: nat := len;
    while remaining > 0
      invariant remaining <= len && sock.sendFails == old(sock.sendFails)
      invariant sock.output == old(sock.output) + buff[..len - remaining]
    {
      var n := sock.Send(buff[len - remaining..len]);
      if n <= 0 {
        return FAILURE;
      }
      assert buff[..len - remaining] + buff[len - remaining..len][..n] == buff[..len - (remaining - n)];
      remaining := remaining - n;
    }
    return OK;
  }

  /** `socket_recv_accumulate`: exactly the next `len` bytes of the stream, or
      fewer and FAILURE. */
  method RecvAccumulate(sock: Socket, buff: array<byte>, len: nat) returns (rc: ReturnCode)
    requires sock.Valid() && len <= buff.Length
    modifies sock`pos, sock`recvFails, buff
    ensures sock.recvFails == old(sock.recvFails) + if rc == OK then 0 else 1
    ensures sock.Valid() && old(sock.pos) <= sock.pos <= old(sock.pos) + len
    ensures rc == if sock.pos == old(sock.pos) + len then OK else FAILURE
    ensures buff[..sock.pos - old(sock.pos)] == sock.input[old(sock.pos)..sock.pos]
    ensures forall i :: sock.pos - old(sock.pos) <= i < buff.Length ==> buff[i] == old(buff[i])
  {
    var remaining: nat, at: nat := len, 0;
    while remaining > 0
      invariant sock.Valid() && remaining + at == len && sock.pos == old(sock.pos) + at
      invariant sock.recvFails == old(sock.recvFails)
      invariant buff[..at] == sock.input[old(sock.pos)..sock.pos]
      invariant forall i :: at <= i < buff.Length ==> buff[i] == old(buff[i])
    {
      ghost var got, pos := buff[..at], sock.pos;
      var n := sock.Recv(buff, at, remaining);
      if n <= 0 {
        return FAILURE;
      }
      assert buff[..at + n] == buff[..at] + buff[at..at + n] == got + sock.input[pos..sock.pos];
      assert sock.input[old(sock.pos)..sock.pos] == sock.input[old(sock.pos)..pos] + sock.input[pos..sock.pos];
      remaining := remaining - n;
      at := at + n;
    }
    return OK;
  }

  /** The first NUL of `s` is at `z`. */
  predicate FirstNul(s: seq<byte>, z: nat) {
    z < |s| && s[z] == 0 && 0 !in s[..z]
  }

  /** `memchr(buff + at, 0, n)` */
  method HasNul(buff: array<byte>, at: nat, n: nat) returns (found: bool)
    requires at + n <= buff.Length
    ensures found <==> 0 in buff[at..at + n]
  {
    for i := 0 to n
      invariant 0 !in buff[at..at + i]
    {
      if buff[at + i] == 0 {
        assert buff[at..at + n][i] == 0;
        return true;
      }
      assert buff[at..at + i + 1] == buff[at..at + i] + [buff[at + i]];
    }
    return false;
  }

  lemma NulIn(s: seq<byte>) returns (z: nat)
    requires 0 in s
    ensures FirstNul(s, z)
  {
    if s[0] == 0 {
      z := 0;
    } else {
      assert s == [s[0]] + s[1..];
      var k := NulIn(s[1..]);
      z := k + 1;
      assert s[..z] == [s[0]] + s[1..][..k];
    }
  }

  /** `socket_recv_until_null_reached`: unless a receive fails, OK exactly when
      the first NUL of the stream is within the next `maxLen` bytes, and then
      the buffer holds the same string however the chunks fall. */
  method RecvUntilNullReached(sock: Socket, buff: array<byte>, maxLen: nat) returns (rc: ReturnCode, failed: bool)
    requires sock.Valid() && maxLen <= buff.Length
    modifies sock`pos, sock`recvFails, buff
    ensures failed <==> sock.recvFails > old(sock.recvFails)
    ensures sock.Valid() && old(sock.pos) <= sock.pos <= old(sock.pos) + maxLen
    ensures rc == OK ==>
              !failed && exists z: nat ::
                z < maxLen && FirstNul(sock.input[old(sock.pos)..], z)
                && buff[..z + 1] == sock.input[old(sock.pos)..][..z + 1]
    ensures rc != OK ==> rc == FAILURE && 0 !in sock.input[old(sock.pos)..sock.pos]
    ensures rc != OK ==> (failed <==> sock.pos < old(sock.pos) + maxLen)
  {
    var remaining: nat, at: nat := maxLen, 0;
    failed := false;
    ghost var stream := sock.input[sock.pos..];
    while remaining > 0
      invariant sock.Valid() && remaining + at == maxLen && sock.pos == old(sock.pos) + at
      invariant sock.recvFails == old(sock.recvFails)
      invariant buff[..at] == stream[..at] && 0 !in stream[..at]
      invariant stream[..at] == sock.input[old(sock.pos)..sock.pos]
    {
      ghost var pos := sock.pos;
      var n := sock.Recv(buff, at, remaining);
      if n <= 0 {
        failed := true;
        return FAILURE, failed;
      }
      assert sock.input[pos..sock.pos] == stream[at..at + n];
      assert buff[..at + n] == buff[..at] + buff[at..at + n];
      assert stream[..at + n] == stream[..at] + stream[at..at + n];
      remaining := remaining - n;
      var found := HasNul(buff, at, n);
      if found {
        FoundNul(stream, at, n, buff[..at + n]);
        return OK, failed;
      }
      at := at + n;
    }
    return FAILURE, failed;
  }

  lemma FoundNul(stream: seq<byte>, at: nat, n: nat, got: seq<byte>)
    requires at + n <= |stream| && 0 !in stream[..at] && 0 in stream[at..at + n] && got == stream[..at + n]
    ensures exists z: nat :: z < at + n && FirstNul(stream, z) && got[..z + 1] == stream[..z + 1]
  {
    var k := NulIn(stream[at..at + n]);
    var z := at + k;
    assert stream[..z] == stream[..at] + stream[at..at + n][..k];
    assert FirstNul(stream, z) && got[..z + 1] == stream[..z + 1];
  }
}

/** The connection the client talks over, as an abstract byte stream: everything the
    broker will send on it, a read position into that, and the log of what the client has
    written. Creating, connecting and wrapping the socket in TLS happen outside the
    client and are not part of this model. */
module Transport {
  import opened Wire

  class Socket {
    /** Every byte the broker sends on this connection, in order; the connection closes
        after the last one. */
    const input: seq<Byte>
    /** How much of `input` has been read. */
    var pos: nat
    /** Every byte written so far. */
    var output: seq<Byte>
    /** Whether reads wait for data (`setblocking`). */
    var blocking: bool
    /** Whether a non-blocking read finds data waiting; set by the environment. */
    var ready: bool
    var closed: bool

    ghost predicate Valid()
      reads this
    {
      pos <= |input|
    }

    /** A fresh, connected, blocking socket on which the broker will send `input`. */
    constructor (input: seq<Byte>, ready: bool)
      ensures Valid() && this.input == input && this.ready == ready
      ensures pos == 0 && output == [] && blocking && !closed
    {
      this.input := input;
      this.ready := ready;
      pos := 0;
      output := [];
      blocking := true;
      closed := false;
    }

    /** `read(n)`: None when the socket is non-blocking and nothing is waiting; otherwise
        up to `n` bytes, fewer (down to none) when the connection closes first. */
    method Read(n: nat) returns (r: Option<seq<Byte>>)
      requires Valid()
      modifies this`pos
      ensures Valid()
      ensures r == if !blocking && !ready then None else Some(Take(input, old(pos), n))
      ensures pos == old(pos) + if r.Some? then |r.value| else 0
    {
      if !blocking && !ready {
        return None;
      }
      var end := if pos + n <= |input| then pos + n else |input|;
      TakeSlice(input, pos, n);
      r := Some(input[pos..end]);
      pos := end;
    }

    /** `write(buf)`: the bytes are appended to the stream. */
    method Write(buf: seq<Byte>)
      modifies this`output
      ensures output == old(output) + buf
    {
      output := output + buf;
    }

    method SetBlocking(flag: bool)
      modifies this`blocking
      ensures blocking == flag
    {
      blocking := flag;
    }

    method Close()
      modifies this`closed
      ensures closed
    {
      closed := true;
    }
  }
}

/** A connected stream socket, as the two socket protocols use it. */
module Sockets {

  /** A call that moved something: what was asked for and what was moved. */
  datatype Event<T> = Wrote(asked: nat, n: nat) | Got(asked: nat, data: seq<T>)

  /**
   * `output` is what the kernel has accepted, `input` the peer's bytes still to
   * be read, `calls` the calls that have moved something. `failed` remembers that
   * a call moved nothing, `short` that one moved less than it was asked to.
   */
  class Socket<T> {
    var output: seq<T>
    var input: seq<T>
    ghost var calls: seq<Event<T>>
    ghost var failed: bool
    ghost var short: bool

    constructor (input: seq<T>)
      ensures output == [] && this.input == input && calls == [] && !failed && !short
    {
      output := [];
      this.input := input;
      calls, failed, short := [], false, false;
    }

    /** write(2): accepts a prefix, or nothing and reports an error or a closed peer. */
    method Write(msg: seq<T>) returns (n: int)
      modifies this`output, this`calls, this`failed, this`short
      ensures n <= |msg|
      ensures output == old(output) + (if n > 0 then msg[..n] else [])
      ensures calls == old(calls) + (if n > 0 then [Wrote(|msg|, n)] else [])
      ensures failed == (old(failed) || n <= 0) && short == (old(short) || n < |msg|)
    {
      n :| -1 <= n <= |msg|;
      failed, short := failed || n <= 0, short || n < |msg|;
      if n > 0 {
        output := output + msg[..n];
        calls := calls + [Wrote(|msg|, n)];
      }
    }

    /** read(2): returns between one and size of the available bytes, or reports an error or end of stream. */
    method Read(size: nat) returns (n: int, data: seq<T>)
      modifies this`input, this`calls, this`failed, this`short
      ensures n <= size && |data| == (if n > 0 then n else 0)
      ensures old(input) == data + input
      ensures calls == old(calls) + (if n > 0 then [Got(size, data)] else [])
      ensures failed == (old(failed) || n <= 0) && short == (old(short) || n < size)
    {
      n :| -1 <= n <= size && n <= |input|;
      failed, short := failed || n <= 0, short || n < size;
      data := if n > 0 then input[..n] else [];
      if n > 0 {
        input := input[n..];
        calls := calls + [Got(size, data)];
      }
    }
  }
}

/**
 * The deletion queue: a Go channel as a FIFO buffer with a closed flag. Workers
 * range over it until it is closed and empty.
 */
module Channels {
  import opened Wrappers

  class Channel<T> {
    var buffer: seq<T>
    var closed: bool

    constructor ()
      ensures buffer == [] && !closed
    {
      buffer := [];
      closed := false;
    }

    /** Sending on a closed channel panics, so senders never do. */
    method Send(x: T)
      requires !closed
      modifies this
      ensures buffer == old(buffer) + [x] && !closed
    {
      buffer := buffer + [x];
    }

    /** Closing twice panics. */
    method Close()
      requires !closed
      modifies this
      ensures closed && buffer == old(buffer)
    {
      closed := true;
    }

    /**
     * The next queued value in FIFO order, or None once the channel is closed and
     * drained (the `ok == false` receive that ends a range loop). A receive on an
     * open empty channel would block, so it is not allowed here.
     */
    method Receive() returns (r: Option<T>)
      requires closed || buffer != []
      modifies this
      ensures old(buffer) != [] ==> r == Some(old(buffer)[0]) && buffer == old(buffer)[1..]
      ensures old(buffer) == [] ==> r == None && buffer == []
      ensures closed == old(closed)
    {
      if buffer == [] {
        r := None;
      } else {
        r := Some(buffer[0]);
        buffer := buffer[1..];
      }
    }
  }
}
